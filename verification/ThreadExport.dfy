/** What one thread exports for the viewer over its life: whole trees, which it flattens afresh each
    time, and one trie of selected paths, which it keeps and builds on. Both count their nodes
    in the same counter. */
module ThreadExport {
  import opened Options
  import opened Cct
  import opened CctFlatten
  import opened PathInsertion
  import opened FmtWriter
  import T = FmtTrie

  // ---- repeated builds of one trie ----

  /** One build: paths are inserted, then the IDs of all leaves are negated. */
  ghost predicate BuildStep(a: seq<T.FmtNode>, c: seq<T.FmtNode>, d: seq<T.FmtNode>) {
    T.Linked(a) && T.Linked(c) && T.Linked(d) && T.KeepsIds(a, c) && T.LeavesNegated(c, d, [0])
  }

  ghost predicate IsBuild(a: seq<T.FmtNode>, d: seq<T.FmtNode>) {
    exists c :: BuildStep(a, c, d)
  }

  /** The nodes of a trie when its root was made, and after each build since. */
  ghost predicate Builds(b: seq<seq<T.FmtNode>>) {
    && |b| > 0 && b[0] != [] && (forall i :: 0 <= i < |b[0]| ==> b[0][i].id > 0)
    && forall k :: 0 < k < |b| ==> IsBuild(b[k - 1], b[k])
  }

  predicate ChildlessIn(ns: seq<T.FmtNode>, i: nat) {
    i < |ns| && ns[i].children == []
  }

  /** The number of builds after which node `i` was there and childless. */
  function LeafBuilds(b: seq<seq<T.FmtNode>>, i: nat): nat {
    if |b| <= 1 then 0 else
    var last := |b| - 1;
    LeafBuilds(b[..last], i) + if ChildlessIn(b[last], i) then 1 else 0
  }

  lemma BuildsFront(b: seq<seq<T.FmtNode>>)
    requires Builds(b) && |b| > 1
    ensures Builds(b[..|b| - 1]) && IsBuild(b[|b| - 2], b[|b| - 1])
  {
    var front := b[..|b| - 1];
    forall k | 0 < k < |front| ensures IsBuild(front[k - 1], front[k]) {
      assert IsBuild(b[k - 1], b[k]);
    }
  }

  lemma BuildIds(a: seq<T.FmtNode>, c: seq<T.FmtNode>, d: seq<T.FmtNode>, i: nat)
    requires BuildStep(a, c, d) && i < |d|
    ensures |a| <= |c| == |d|
    ensures d[i].id == if ChildlessIn(d, i) then -c[i].id else c[i].id
    ensures if i < |a| then c[i].id == a[i].id else c[i].id > 0
  {
    T.UnderOne(c, 0, i);
    assert T.Path(c, 0) <= T.Path(c, i);
  }

  lemma {:induction false} NotThereYet(b: seq<seq<T.FmtNode>>, i: nat)
    requires Builds(b) && i >= |b[|b| - 1]|
    ensures LeafBuilds(b, i) == 0
  {
    if |b| > 1 {
      BuildsFront(b);
      var c :| BuildStep(b[|b| - 2], c, b[|b| - 1]);
      NotThereYet(b[..|b| - 1], i);
    }
  }

  lemma SignStep(a: seq<T.FmtNode>, d: seq<T.FmtNode>, i: nat, n: nat)
    requires IsBuild(a, d) && i < |d|
    requires if i < |a| then a[i].id != 0 && (a[i].id < 0 <==> n % 2 == 1) else n == 0
    ensures var n' := n + if ChildlessIn(d, i) then 1 else 0; d[i].id != 0 && (d[i].id < 0 <==> n' % 2 == 1)
  {
    var c :| BuildStep(a, c, d);
    BuildIds(a, c, d, i);
  }

  /** After any number of builds an ID is negative iff the builds after which its node was childless
      are odd in number. */
  lemma {:induction false} SignIsParity(b: seq<seq<T.FmtNode>>, i: nat)
    requires Builds(b) && i < |b[|b| - 1]|
    ensures var id := b[|b| - 1][i].id; id != 0 && (id < 0 <==> LeafBuilds(b, i) % 2 == 1)
  {
    if |b| > 1 {
      BuildsFront(b);
      var front := b[..|b| - 1];
      if i < |front[|front| - 1]| {
        SignIsParity(front, i);
      } else {
        NotThereYet(front, i);
      }
      SignStep(front[|front| - 1], b[|b| - 1], i, LeafBuilds(front, i));
    }
  }

  /** The node made last has no child. */
  lemma LastIsChildless(ns: seq<T.FmtNode>)
    requires T.Linked(ns)
    ensures ChildlessIn(ns, |ns| - 1)
  {
    var i := |ns| - 1;
    if ns[i].children != [] {
      T.ChildBounds(ns, i, 0);
    }
  }

  /** After the first build an ID is negative iff its node is childless. */
  lemma FirstBuildMarks(b: seq<seq<T.FmtNode>>)
    requires Builds(b) && |b| == 2
    ensures forall i :: 0 <= i < |b[1]| ==> (b[1][i].id < 0 <==> b[1][i].children == [])
  {
    forall i | 0 <= i < |b[1]| ensures b[1][i].id < 0 <==> b[1][i].children == [] {
      SignIsParity(b, i);
      assert LeafBuilds(b[..1], i) == 0;
    }
  }

  /** After the second one this fails, whatever it inserted: a leaf of the first build is by then
      positive and childless, or negative and inner. */
  lemma SecondBuildBreaks(b: seq<seq<T.FmtNode>>) returns (i: nat)
    requires Builds(b) && |b| == 3
    ensures i < |b[2]| && !(b[2][i].id < 0 <==> b[2][i].children == [])
  {
    BuildsFront(b);
    assert b[..2][0] == b[0] && b[..2][1] == b[1];
    var c1 :| BuildStep(b[0], c1, b[1]);
    assert IsBuild(b[1], b[2]);
    var c2 :| BuildStep(b[1], c2, b[2]);
    i := |b[1]| - 1;
    LastIsChildless(b[1]);
    SignIsParity(b, i);
    assert b[..2][..1] == b[..1] && LeafBuilds(b[..1], i) == 0 && LeafBuilds(b[..2], i) == 1;
  }

  /** In general the IDs mark the leaves iff every node was childless after an odd number of builds
      exactly when it is childless now. */
  lemma MarksIffParity(b: seq<seq<T.FmtNode>>)
    requires Builds(b)
    ensures var ns := b[|b| - 1];
            (forall i :: 0 <= i < |ns| ==> (ns[i].id < 0 <==> ns[i].children == []))
            <==> forall i :: 0 <= i < |ns| ==> (ns[i].children == [] <==> LeafBuilds(b, i) % 2 == 1)
  {
    var ns := b[|b| - 1];
    forall i | 0 <= i < |ns| ensures ns[i].id < 0 <==> LeafBuilds(b, i) % 2 == 1 {
      SignIsParity(b, i);
    }
  }

  // ---- the thread ----

  method InsertAndReset(shadows: seq<Shadow>, s: Store, t: T.Trie, runs: seq<RunNode>)
    requires t.Valid() && Inv(shadows, s) && GoodRuns(s, runs, t.metricNum)
    modifies t`nodes, t`nodeCount, t`lastId, t`view
    ensures t.Valid() && IsBuild(old(t.nodes), t.nodes)
    ensures t.view == InsertRuns(shadows, s, old(t.view), runs, t.metricNum)
  {
    ghost var a := t.nodes;
    InsertList(shadows, s, t, runs);
    ghost var c := t.nodes;
    t.ResetLeafNodeId(0);
    assert BuildStep(a, c, t.nodes);
  }

  lemma PathsOfThread(shadows: seq<Shadow>, s: Store, root: nat, ns: seq<T.FmtNode>)
    requires Inv(shadows, s) && root < |s.nodes| && s.nodes[root].parent == None
    requires T.Linked(ns) && Signs(ns, Marked(map[], ThreadVisits(shadows, s, root)))
    ensures forall p :: T.HasPath(ns, p) <==> exists h :: SpelledBy(shadows, s, root, p, h)
  {
    forall p ensures T.HasPath(ns, p) <==> exists h :: SpelledBy(shadows, s, root, p, h) {
      FlatPaths(shadows, s, root, ns, p);
    }
  }

  /** A tree is built from the thread's nodes, written, and dropped. */
  method FlattenAndWrite(shadows: seq<Shadow>, s: Store, root: nat, metricNum: nat, lastId: nat, counted: nat)
    returns (count: nat, out: seq<nat>, ghost ns: seq<T.FmtNode>)
    requires Inv(shadows, s) && root < |s.nodes| && s.nodes[root].parent == None
    ensures T.Linked(ns) && Signs(ns, Marked(map[], ThreadVisits(shadows, s, root)))
    ensures forall p :: T.HasPath(ns, p) <==> exists h :: SpelledBy(shadows, s, root, p, h)
    ensures WholeFile(ns, out) && count == counted + |out|
  {
    var t := FlattenThread(shadows, s, root, metricNum, lastId, counted);
    ns := t.nodes;
    PathsOfThread(shadows, s, root, ns);
    count, out := WriteCct(t, t.nodeCount);
  }

  class ThreadFmt {
    const metricNum: nat
    var nodeCount: nat
    var cctRoot: T.Trie?
    /** The kept trie after each build, and what other exports have added to the counter since
        its root was made. */
    ghost var builds: seq<seq<T.FmtNode>>
    ghost var surplus: nat

    ghost predicate Valid()
      reads this, cctRoot
    {
      cctRoot != null ==>
        && cctRoot.Valid() && cctRoot.metricNum == metricNum
        && Builds(builds) && |builds| > 1 && builds[|builds| - 1] == cctRoot.nodes
        && nodeCount == |cctRoot.nodes| + surplus
    }

    /** `event_thread_start` */
    constructor (metricNum: nat)
      ensures Valid() && this.metricNum == metricNum && nodeCount == 0 && cctRoot == null
    {
      this.metricNum, nodeCount, cctRoot, builds, surplus := metricNum, 0, null, [], 0;
    }

    /** `write_thread_all_cct_hpcrun_format`: a record for each program-counter path of the thread's handles,
        and for nothing else. The count in front is the number of records iff nothing was counted on this
        thread before. */
    method WriteAllCct(shadows: seq<Shadow>, s: Store, root: nat, lastId: nat)
      returns (count: nat, out: seq<nat>, ghost ns: seq<T.FmtNode>)
      requires Valid() && Inv(shadows, s) && root < |s.nodes| && s.nodes[root].parent == None
      modifies this`nodeCount, this`surplus
      ensures Valid() && T.Linked(ns) && Signs(ns, Marked(map[], ThreadVisits(shadows, s, root)))
      ensures forall p :: T.HasPath(ns, p) <==> exists h :: SpelledBy(shadows, s, root, p, h)
      ensures WholeFile(ns, out)
      ensures count == nodeCount == old(nodeCount) + |out| && surplus == old(surplus) + |out|
      ensures count == |out| <==> old(nodeCount) == 0
    {
      count, out, ns := FlattenAndWrite(shadows, s, root, metricNum, lastId, nodeCount);
      nodeCount := count;
      surplus := surplus + |out|;
    }

    /** `build_thread_custom_cct_hpurun_format`: the first build makes the root and sets the counter,
        later ones insert into what is there; each ends with the leaf reset. `lastId` is the last ID drawn so
        far, and no build finds it lower than its predecessor left it. */
    method BuildCustomCct(shadows: seq<Shadow>, s: Store, runs: seq<RunNode>, lastId: nat)
      requires Valid() && Inv(shadows, s) && GoodRuns(s, runs, metricNum)
      requires cctRoot != null ==> lastId >= cctRoot.lastId
      modifies this, cctRoot
      ensures Valid() && cctRoot != null && (old(cctRoot) == null ==> fresh(cctRoot))
      ensures old(cctRoot) != null ==> cctRoot == old(cctRoot) && builds == old(builds) + [cctRoot.nodes] && surplus == old(surplus)
      ensures old(cctRoot) == null ==> |builds| == 2 && surplus == 0
      ensures cctRoot.view == InsertRuns(shadows, s,
                                         if old(cctRoot) == null then map[[] := T.Zeros(metricNum)] else old(cctRoot.view),
                                         runs, metricNum)
    {
      var drawn: int := lastId;
      if cctRoot == null {
        cctRoot := new T.Trie(metricNum, lastId, 0);
        nodeCount, builds, surplus, drawn := 1, [cctRoot.nodes], 0, cctRoot.lastId;
      }
      AddBuild(shadows, s, cctRoot, runs, drawn);
    }

    /** The insertions and the reset, on the root that is there. */
    method AddBuild(shadows: seq<Shadow>, s: Store, t: T.Trie, runs: seq<RunNode>, drawn: int)
      requires cctRoot == t && t.Valid() && t.metricNum == metricNum && Inv(shadows, s) && GoodRuns(s, runs, metricNum)
      requires Builds(builds) && builds[|builds| - 1] == t.nodes && nodeCount == |t.nodes| + surplus
      requires drawn >= t.lastId
      modifies this`nodeCount, this`builds, t`nodes, t`nodeCount, t`lastId, t`view, t`base
      ensures Valid() && builds == old(builds) + [t.nodes]
      ensures t.view == InsertRuns(shadows, s, old(t.view), runs, metricNum)
    {
      ghost var b := builds;
      t.CountFrom(nodeCount, drawn);
      InsertAndReset(shadows, s, t, runs);
      BuildsGrow(b, t.nodes);
      nodeCount, builds := t.nodeCount, b + [t.nodes];
    }

    /** `write_thread_custom_cct_hpurun_format`: the count in front is the number of records iff no
        whole tree was exported since the first build. */
    method WriteCustomCct() returns (count: nat, out: seq<nat>)
      requires Valid() && cctRoot != null
      ensures count == nodeCount && WholeFile(cctRoot.nodes, out)
      ensures count == |out| <==> surplus == 0
    {
      count, out := WriteCct(cctRoot, nodeCount);
    }
  }

  lemma BuildsGrow(b: seq<seq<T.FmtNode>>, d: seq<T.FmtNode>)
    requires Builds(b) && IsBuild(b[|b| - 1], d)
    ensures Builds(b + [d])
  {
    var b' := b + [d];
    forall k | 0 < k < |b'| ensures IsBuild(b'[k - 1], b'[k]) {
      if k < |b| {
        assert IsBuild(b[k - 1], b[k]);
      }
    }
  }

  // ---- two short lives in which a promise fails ----

  /** The second export of a thread announces more nodes than it writes. */
  method ExportTwice(shadows: seq<Shadow>, s: Store, root: nat, metricNum: nat) returns (count: nat, out: seq<nat>)
    requires Inv(shadows, s) && root < |s.nodes| && s.nodes[root].parent == None
    ensures count > |out|
  {
    var th := new ThreadFmt(metricNum);
    ghost var ns;
    count, out, ns := th.WriteAllCct(shadows, s, root, 0);
    count, out, ns := th.WriteAllCct(shadows, s, root, 0);
  }

  /** After two builds of any path lists some node's ID does not tell whether it is a leaf. */
  method BuildTwice(shadows: seq<Shadow>, s: Store, runs1: seq<RunNode>, runs2: seq<RunNode>, metricNum: nat)
    returns (th: ThreadFmt, ghost i: nat)
    requires Inv(shadows, s) && GoodRuns(s, runs1, metricNum) && GoodRuns(s, runs2, metricNum)
    ensures th.cctRoot != null && i < |th.cctRoot.nodes|
    ensures !(th.cctRoot.nodes[i].id < 0 <==> th.cctRoot.nodes[i].children == [])
  {
    th := new ThreadFmt(metricNum);
    th.BuildCustomCct(shadows, s, runs1, 0);
    th.BuildCustomCct(shadows, s, runs2, th.cctRoot.lastId);
    i := SecondBuildBreaks(th.builds);
  }
}
