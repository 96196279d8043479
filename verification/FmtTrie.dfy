/** The instruction-pointer trie in the form the viewer reads: nodes with parent links, child
    lists, IDs and metrics, found or created along paths of program counters. */
module FmtTrie {
  import opened Options

  /** `hpcviewer_format_ip_node_t`; nodes are numbered in creation order, the root is 0. */
  datatype FmtNode = FmtNode(parent: Option<nat>, addr: int, id: int, parentId: int, metrics: seq<nat>, children: seq<nat>)

  // ---- well-formed tries ----

  ghost predicate ChildrenOk(ns: seq<FmtNode>, p: nat)
    requires p < |ns|
  {
    && (forall k :: 0 <= k < |ns[p].children| ==> ns[p].children[k] < |ns| && ns[ns[p].children[k]].parent == Some(p))
    && (forall k, l :: 0 <= k < l < |ns[p].children| ==>
          ns[p].children[k] < |ns| && ns[p].children[l] < |ns|
          && ns[ns[p].children[k]].addr != ns[ns[p].children[l]].addr)
  }

  ghost predicate ParentOk(ns: seq<FmtNode>, i: nat)
    requires i < |ns|
  {
    if i == 0 then ns[i].parent == None else
    && ns[i].parent.Some? && ns[i].parent.value < i
    && i in ns[ns[i].parent.value].children && ns[i].parentId == ns[ns[i].parent.value].id
  }

  ghost predicate Linked(ns: seq<FmtNode>) {
    && |ns| > 0
    && (forall i :: 0 <= i < |ns| ==> ParentOk(ns, i))
    && (forall i :: 0 <= i < |ns| ==> ChildrenOk(ns, i))
  }

  ghost function Path(ns: seq<FmtNode>, i: nat): seq<int>
    requires Linked(ns) && i < |ns|
    decreases i
  {
    assert ParentOk(ns, i);
    if i == 0 then [] else Path(ns, ns[i].parent.value) + [ns[i].addr]
  }

  /** Siblings differ in address, so paths identify nodes. */
  lemma {:induction false} PathsDiffer(ns: seq<FmtNode>, i: nat, j: nat)
    requires Linked(ns) && i < |ns| && j < |ns| && Path(ns, i) == Path(ns, j)
    ensures i == j
    decreases i
  {
    assert ParentOk(ns, i) && ParentOk(ns, j);
    if i != 0 && j != 0 {
      var p, q := ns[i].parent.value, ns[j].parent.value;
      assert Path(ns, p) == Path(ns, i)[..|Path(ns, i)| - 1];
      assert Path(ns, q) == Path(ns, j)[..|Path(ns, j)| - 1];
      PathsDiffer(ns, p, q);
      assert ns[i].addr == Path(ns, i)[|Path(ns, i)| - 1] == ns[j].addr;
      assert ChildrenOk(ns, p);
    }
  }

  /** A child with the sought address is the node of the extended path. */
  lemma ChildOfPath(ns: seq<FmtNode>, p: nat, i: nat, addr: int)
    requires Linked(ns) && p < |ns| && i < |ns|
    ensures Path(ns, i) == Path(ns, p) + [addr] <==> i in ns[p].children && ns[i].addr == addr
  {
    assert ParentOk(ns, i) && ChildrenOk(ns, p);
    if Path(ns, i) == Path(ns, p) + [addr] {
      assert i != 0;
      var q := ns[i].parent.value;
      assert Path(ns, q) == Path(ns, i)[..|Path(ns, i)| - 1];
      PathsDiffer(ns, p, q);
      assert ns[i].addr == Path(ns, i)[|Path(ns, i)| - 1];
    }
    if i in ns[p].children {
      var k :| 0 <= k < |ns[p].children| && ns[p].children[k] == i;
      assert ns[i].parent == Some(p);
    }
  }

  /** Only metrics and IDs may change in an existing node, and child lists may grow. */
  ghost predicate Extends(ns: seq<FmtNode>, ns': seq<FmtNode>) {
    && |ns| <= |ns'|
    && forall i :: 0 <= i < |ns| ==> ns'[i].parent == ns[i].parent && ns'[i].addr == ns[i].addr
  }

  lemma ExtendsTrans(a: seq<FmtNode>, b: seq<FmtNode>, c: seq<FmtNode>)
    requires Extends(a, b) && Extends(b, c)
    ensures Extends(a, c)
  {
  }

  lemma {:induction false} ExtendsPath(ns: seq<FmtNode>, ns': seq<FmtNode>, i: nat)
    requires Linked(ns) && Linked(ns') && Extends(ns, ns') && i < |ns|
    ensures Path(ns', i) == Path(ns, i)
    decreases i
  {
    assert ParentOk(ns, i) && ParentOk(ns', i);
    if i != 0 {
      ExtendsPath(ns, ns', ns[i].parent.value);
    }
  }

  // ---- creating a node ----

  function Zeros(n: nat): seq<nat> {
    seq(n, _ => 0)
  }

  function WithChild(ns: seq<FmtNode>, p: nat, addr: int, id: int, metricNum: nat): seq<FmtNode>
    requires p < |ns|
  {
    ns[p := ns[p].(children := ns[p].children + [|ns|])]
    + [FmtNode(Some(p), addr, id, ns[p].id, Zeros(metricNum), [])]
  }

  /** No child of `p` has the address. */
  ghost predicate Lacks(ns: seq<FmtNode>, p: nat, addr: int)
    requires p < |ns|
  {
    forall k :: 0 <= k < |ns[p].children| ==> ns[p].children[k] < |ns| && ns[ns[p].children[k]].addr != addr
  }

  lemma WithChildParents(ns: seq<FmtNode>, p: nat, addr: int, id: int, metricNum: nat, i: nat)
    requires Linked(ns) && p < |ns| && i <= |ns|
    ensures ParentOk(WithChild(ns, p, addr, id, metricNum), i)
  {
    var ns' := WithChild(ns, p, addr, id, metricNum);
    if i < |ns| {
      assert ParentOk(ns, i);
    } else {
      assert ns'[p].children[|ns[p].children|] == i;
    }
  }

  lemma WithChildChildren(ns: seq<FmtNode>, p: nat, addr: int, id: int, metricNum: nat, i: nat)
    requires Linked(ns) && p < |ns| && i <= |ns| && Lacks(ns, p, addr)
    ensures ChildrenOk(WithChild(ns, p, addr, id, metricNum), i)
  {
    if i < |ns| {
      assert ChildrenOk(ns, i);
    }
  }

  lemma WithChildKeeps(ns: seq<FmtNode>, p: nat, addr: int, id: int, metricNum: nat)
    requires Linked(ns) && p < |ns| && Lacks(ns, p, addr)
    ensures var ns' := WithChild(ns, p, addr, id, metricNum);
            && Linked(ns') && Extends(ns, ns')
            && Path(ns', |ns|) == Path(ns, p) + [addr]
  {
    var ns' := WithChild(ns, p, addr, id, metricNum);
    forall i | 0 <= i < |ns'| ensures ParentOk(ns', i) && ChildrenOk(ns', i) {
      WithChildParents(ns, p, addr, id, metricNum, i);
      WithChildChildren(ns, p, addr, id, metricNum, i);
    }
    ExtendsPath(ns, ns', p);
  }

  // ---- IDs ----

  function Abs(n: int): nat {
    if n < 0 then -n else n
  }

  /** Apart from their signs, IDs grow with the node numbers up to the last one drawn. */
  predicate IdsOk(ns: seq<FmtNode>, lastId: int) {
    && (forall i :: 0 <= i < |ns| ==> 0 < Abs(ns[i].id) <= lastId)
    && (forall i, j :: 0 <= i < j < |ns| ==> Abs(ns[i].id) < Abs(ns[j].id))
  }

  /** The `parentId` of a record is the ID of its parent and of no other record. */
  lemma ParentIdNamesParent(ns: seq<FmtNode>, lastId: int, i: nat, j: nat)
    requires Linked(ns) && IdsOk(ns, lastId) && 0 < i < |ns| && j < |ns|
    ensures Abs(ns[j].id) == Abs(ns[i].parentId) <==> ns[i].parent == Some(j)
    ensures ns[i].parent == Some(j) ==> ns[j].id == ns[i].parentId
  {
    assert ParentOk(ns, i);
    var p := ns[i].parent.value;
    if j != p {
      assert Abs(ns[j].id) != Abs(ns[p].id);
    }
  }

  lemma UpdateKeepsIds(ns: seq<FmtNode>, i: nat, n: FmtNode, lastId: int)
    requires i < |ns| && IdsOk(ns, lastId) && Abs(n.id) == Abs(ns[i].id)
    ensures IdsOk(ns[i := n], lastId)
  {
  }

  /** What creating a node does: one record more, with an ID above all others and its parent's ID, and
      one entry more in its parent's list. */
  ghost predicate AddsChild(ns: seq<FmtNode>, ns': seq<FmtNode>, p: nat, addr: int, id: int, metricNum: nat) {
    && p < |ns| && |ns'| == |ns| + 1
    && ns'[|ns|] == FmtNode(Some(p), addr, id, ns[p].id, Zeros(metricNum), [])
    && forall i :: 0 <= i < |ns| ==>
         ns'[i] == ns[i].(children := ns[i].children + if i == p then [|ns|] else [])
  }

  lemma WithChildIds(ns: seq<FmtNode>, lastId: int, p: nat, addr: int, id: int, metricNum: nat)
    requires p < |ns| && IdsOk(ns, lastId) && lastId < id && lastId >= 0
    ensures var ns' := WithChild(ns, p, addr, id, metricNum);
            IdsOk(ns', id) && AddsChild(ns, ns', p, addr, id, metricNum) && Grown(ns, ns')
  {
  }

  // ---- the trie as a map from paths to metrics ----

  type View = map<seq<int>, seq<nat>>

  ghost predicate HasPath(ns: seq<FmtNode>, path: seq<int>)
    requires Linked(ns)
  {
    exists i :: 0 <= i < |ns| && Path(ns, i) == path
  }

  ghost predicate Shown(ns: seq<FmtNode>, v: View, i: nat)
    requires Linked(ns) && i < |ns|
  {
    Path(ns, i) in v && v[Path(ns, i)] == ns[i].metrics
  }

  ghost predicate Views(ns: seq<FmtNode>, v: View)
    requires Linked(ns)
  {
    && (forall i :: 0 <= i < |ns| ==> Shown(ns, v, i))
    && (forall p :: p in v ==> HasPath(ns, p))
    && |v| == |ns|
  }

  /** A path that is looked up is there afterwards. */
  function Touch(v: View, path: seq<int>, metricNum: nat): View {
    if path in v then v else v[path := Zeros(metricNum)]
  }

  /** So are all its prefixes below `base`, when it is walked down. */
  function TouchAll(v: View, base: seq<int>, addrs: seq<int>, metricNum: nat): View
    decreases |addrs|
  {
    if addrs == [] then v
    else TouchAll(Touch(v, base + [addrs[0]], metricNum), base + [addrs[0]], addrs[1..], metricNum)
  }

  lemma LackingPathIsNew(ns: seq<FmtNode>, v: View, p: nat, addr: int)
    requires Linked(ns) && Views(ns, v) && p < |ns| && Lacks(ns, p, addr)
    ensures Path(ns, p) + [addr] !in v
  {
    if Path(ns, p) + [addr] in v {
      assert HasPath(ns, Path(ns, p) + [addr]);
      var i :| 0 <= i < |ns| && Path(ns, i) == Path(ns, p) + [addr];
      ChildOfPath(ns, p, i, addr);
    }
  }

  lemma WithChildViews(ns: seq<FmtNode>, v: View, p: nat, addr: int, id: int, metricNum: nat)
    requires Linked(ns) && Views(ns, v) && p < |ns| && Lacks(ns, p, addr)
    ensures var ns', path := WithChild(ns, p, addr, id, metricNum), Path(ns, p) + [addr];
            && path !in v && Linked(ns') && Extends(ns, ns') && Path(ns', |ns|) == path
            && Views(ns', v[path := Zeros(metricNum)])
  {
    WithChildKeeps(ns, p, addr, id, metricNum);
    LackingPathIsNew(ns, v, p, addr);
    var ns', path := WithChild(ns, p, addr, id, metricNum), Path(ns, p) + [addr];
    var v' := v[path := Zeros(metricNum)];
    forall i | 0 <= i < |ns'| ensures Shown(ns', v', i) {
      if i < |ns| {
        assert Shown(ns, v, i);
        ExtendsPath(ns, ns', i);
      }
    }
    forall q | q in v' ensures HasPath(ns', q) {
      if q == path {
        assert Path(ns', |ns|) == q;
      } else {
        assert HasPath(ns, q);
        var i :| 0 <= i < |ns| && Path(ns, i) == q;
        ExtendsPath(ns, ns', i);
      }
    }
  }

  lemma FirstThenRest(base: seq<int>, addrs: seq<int>, k: nat)
    requires 0 < k <= |addrs|
    ensures base + addrs[..k] == (base + [addrs[0]]) + addrs[1..][..k - 1]
  {
    assert addrs[..k] == [addrs[0]] + addrs[1..][..k - 1];
  }

  /** Walking down touches exactly the prefixes, and nothing else changes. */
  lemma {:induction false} TouchAllAt(v: View, base: seq<int>, addrs: seq<int>, metricNum: nat, p: seq<int>)
    ensures var v' := TouchAll(v, base, addrs, metricNum);
            && (p in v' <==> p in v || exists k :: 0 < k <= |addrs| && p == base + addrs[..k])
            && (p in v' ==> v'[p] == if p in v then v[p] else Zeros(metricNum))
    decreases |addrs|
  {
    if addrs != [] {
      var base', rest := base + [addrs[0]], addrs[1..];
      TouchAllAt(Touch(v, base', metricNum), base', rest, metricNum, p);
      assert base' == base + addrs[..1];
      if k :| 0 < k <= |rest| && p == base' + rest[..k] {
        FirstThenRest(base, addrs, k + 1);
        assert p == base + addrs[..k + 1];
      }
      if k :| 0 < k <= |addrs| && p == base + addrs[..k] && k > 1 {
        FirstThenRest(base, addrs, k);
        assert p == base' + rest[..k - 1];
      }
    }
  }

  lemma {:induction false} TouchAllSnoc(v: View, base: seq<int>, addrs: seq<int>, addr: int, metricNum: nat)
    ensures TouchAll(v, base, addrs + [addr], metricNum)
            == Touch(TouchAll(v, base, addrs, metricNum), base + addrs + [addr], metricNum)
    decreases |addrs|
  {
    if addrs == [] {
      assert base + addrs + [addr] == base + [addr];
    } else {
      assert (addrs + [addr])[1..] == addrs[1..] + [addr];
      TouchAllSnoc(Touch(v, base + [addrs[0]], metricNum), base + [addrs[0]], addrs[1..], addr, metricNum);
      assert base + [addrs[0]] + addrs[1..] + [addr] == base + addrs + [addr];
    }
  }

  lemma {:induction false} TouchAllAppend(v: View, base: seq<int>, xs: seq<int>, ys: seq<int>, metricNum: nat)
    ensures TouchAll(TouchAll(v, base, xs, metricNum), base + xs, ys, metricNum) == TouchAll(v, base, xs + ys, metricNum)
    decreases |ys|
  {
    if ys == [] {
      assert xs + ys == xs;
    } else {
      TouchAllSnoc(v, base, xs, ys[0], metricNum);
      TouchAllAppend(v, base, xs + [ys[0]], ys[1..], metricNum);
      assert xs + [ys[0]] + ys[1..] == xs + ys;
      assert base + (xs + [ys[0]]) == base + xs + [ys[0]];
    }
  }

  function Plus(a: seq<nat>, b: seq<nat>): seq<nat> {
    seq(|a|, i requires 0 <= i < |a| => if i < |b| then a[i] + b[i] else a[i])
  }

  /** One inserted path: its prefixes appear, and the metrics are added at its end. */
  ghost function InsertView(v: View, path: seq<int>, metrics: seq<nat>, metricNum: nat): View {
    var t := TouchAll(v, [], path, metricNum);
    if path in t then t[path := Plus(t[path], metrics)] else t
  }

  function MetricAt(n: FmtNode, j: nat): nat {
    if j < |n.metrics| then n.metrics[j] else 0
  }

  /** The sum of metric `j` over all nodes. */
  function Total(ns: seq<FmtNode>, j: nat): nat {
    if ns == [] then 0 else Total(ns[..|ns| - 1], j) + MetricAt(ns[|ns| - 1], j)
  }

  lemma {:induction false} TotalUpdate(ns: seq<FmtNode>, i: nat, n: FmtNode, j: nat)
    requires i < |ns|
    ensures Total(ns[i := n], j) + MetricAt(ns[i], j) == Total(ns, j) + MetricAt(n, j)
  {
    var last := |ns| - 1;
    if i == last {
      assert ns[i := n][..last] == ns[..last];
    } else {
      TotalUpdate(ns[..last], i, n, j);
      assert ns[i := n][..last] == ns[..last][i := n];
    }
  }

  /** Existing nodes keep their IDs, and new ones get positive IDs. */
  ghost predicate KeepsIds(ns: seq<FmtNode>, ns': seq<FmtNode>) {
    && Extends(ns, ns')
    && (forall i :: 0 <= i < |ns| ==> ns'[i].id == ns[i].id)
    && (forall i :: |ns| <= i < |ns'| ==> ns'[i].id > 0)
  }

  lemma KeepsIdsTrans(a: seq<FmtNode>, b: seq<FmtNode>, c: seq<FmtNode>)
    requires KeepsIds(a, b) && KeepsIds(b, c)
    ensures KeepsIds(a, c)
  {
  }

  /** Walking only adds nodes, with positive IDs and zero metrics. */
  ghost predicate Grown(ns: seq<FmtNode>, ns': seq<FmtNode>) {
    && Extends(ns, ns')
    && (forall i :: 0 <= i < |ns| ==> ns'[i].id == ns[i].id && ns'[i].metrics == ns[i].metrics)
    && (forall i :: |ns| <= i < |ns'| ==> ns'[i].id > 0 && ns'[i].metrics == Zeros(|ns'[i].metrics|))
  }

  lemma GrownTrans(a: seq<FmtNode>, b: seq<FmtNode>, c: seq<FmtNode>)
    requires Grown(a, b) && Grown(b, c)
    ensures Grown(a, c)
  {
  }

  lemma {:induction false} GrownTotal(ns: seq<FmtNode>, ns': seq<FmtNode>, j: nat)
    requires Grown(ns, ns')
    ensures Total(ns', j) == Total(ns, j)
    decreases |ns'|
  {
    if ns' != [] {
      var last := |ns'| - 1;
      GrownTotal(if last < |ns| then ns[..last] else ns, ns'[..last], j);
    }
  }

  function Reversed(s: seq<int>): seq<int> {
    if s == [] then [] else Reversed(s[1..]) + [s[0]]
  }

  lemma {:induction false} ReversedTail(s: seq<int>, i: nat)
    requires i < |s|
    ensures Reversed(s[i..]) == Reversed(s[i + 1..]) + [s[i]]
  {
    assert s[i..][1..] == s[i + 1..];
  }

  ghost predicate TrieOk(ns: seq<FmtNode>, v: View, lastId: int, metricNum: nat) {
    && Linked(ns) && Views(ns, v) && lastId >= 0 && IdsOk(ns, lastId)
    && forall i :: 0 <= i < |ns| ==> |ns[i].metrics| == metricNum
  }

  lemma WithChildOk(ns: seq<FmtNode>, v: View, lastId: int, metricNum: nat, p: nat, addr: int, id: int)
    requires TrieOk(ns, v, lastId, metricNum) && p < |ns| && Lacks(ns, p, addr) && lastId < id
    ensures var ns', path := WithChild(ns, p, addr, id, metricNum), Path(ns, p) + [addr];
            && TrieOk(ns', v[path := Zeros(metricNum)], id, metricNum) && path !in v && Path(ns', |ns|) == path
            && AddsChild(ns, ns', p, addr, id, metricNum) && Grown(ns, ns')
  {
    WithChildViews(ns, v, p, addr, id, metricNum);
    WithChildIds(ns, lastId, p, addr, id, metricNum);
  }

  class Trie {
    const metricNum: nat
    var nodes: seq<FmtNode>
    var nodeCount: nat
    var lastId: int
    ghost var view: View
    /** What the node counter held before the root was counted. */
    ghost var base: nat

    ghost predicate Valid()
      reads this
    {
      TrieOk(nodes, view, lastId, metricNum) && nodeCount == base + |nodes|
    }

    /** A fresh trie: the root alone, counted on top of what the counter holds already. */
    constructor (metricNum: nat, lastId: nat, counted: nat)
      ensures Valid() && this.metricNum == metricNum && view == map[[] := Zeros(metricNum)] && base == counted
      ensures |nodes| == 1 && nodes[0].id == this.lastId == lastId + 2 && nodes[0].children == [] && nodes[0].metrics == Zeros(metricNum)
    {
      this.metricNum := metricNum;
      nodes := [FmtNode(None, 0, lastId + 2, 0, Zeros(metricNum), [])];
      nodeCount, base := counted + 1, counted;
      this.lastId := lastId + 2;
      view := map[[] := Zeros(metricNum)];
      new;
      assert Path(nodes, 0) == [];
    }

    /** `constructIPNodeFromIP` below an existing parent that has no child of this address. */
    method ConstructIpNode(parent: nat, addr: int) returns (node: nat)
      requires Valid() && parent < |nodes|
      requires Lacks(nodes, parent, addr)
      modifies this`nodes, this`nodeCount, this`lastId, this`view
      ensures Valid() && Grown(old(nodes), nodes)
      ensures node == |old(nodes)| && lastId == old(lastId) + 2 && AddsChild(old(nodes), nodes, parent, addr, lastId, metricNum)
      ensures var path := Path(old(nodes), parent) + [addr];
              Path(nodes, node) == path && path !in old(view) && view == old(view)[path := Zeros(metricNum)]
    {
      WithChildOk(nodes, view, lastId, metricNum, parent, addr, lastId + 2);
      node := |nodes|;
      view := view[Path(nodes, parent) + [addr] := Zeros(metricNum)];
      lastId := lastId + 2;
      nodes := WithChild(nodes, parent, addr, lastId, metricNum);
      nodeCount := nodeCount + 1;
    }

    /** The node counter is the thread's and the ID counter is shared by all tries: both may have been
        raised since. */
    method CountFrom(count: nat, drawn: int)
      requires Valid() && count >= |nodes| && drawn >= lastId
      modifies this`nodeCount, this`base, this`lastId
      ensures Valid() && nodeCount == count && lastId == drawn
    {
      nodeCount, base, lastId := count, count - |nodes|, drawn;
    }

    /** `findSameIP`, `findSameIPbyIP` */
    method FindSameIp(parent: nat, addr: int) returns (found: Option<nat>)
      requires Valid() && parent < |nodes|
      ensures found.Some? ==> found.value < |nodes| && found.value in nodes[parent].children
                              && Path(nodes, found.value) == Path(nodes, parent) + [addr]
      ensures found.None? ==> Lacks(nodes, parent, addr)
    {
      assert ChildrenOk(nodes, parent);
      for i := 0 to |nodes[parent].children|
        invariant forall k :: 0 <= k < i ==> nodes[nodes[parent].children[k]].addr != addr
      {
        var child := nodes[parent].children[i];
        if nodes[child].addr == addr {
          ChildOfPath(nodes, parent, child, addr);
          return Some(child);
        }
      }
      return None;
    }

    /** The child for the next program counter of a path. */
    method StepDown(cur: nat, addr: int) returns (node: nat)
      requires Valid() && cur < |nodes|
      modifies this`nodes, this`nodeCount, this`lastId, this`view
      ensures Valid() && Grown(old(nodes), nodes) && node < |nodes|
      ensures Path(nodes, node) == Path(old(nodes), cur) + [addr]
      ensures view == Touch(old(view), Path(old(nodes), cur) + [addr], metricNum)
    {
      var found := FindSameIp(cur, addr);
      if found.None? {
        node := ConstructIpNode(cur, addr);
      } else {
        node := found.value;
        assert Shown(nodes, view, node);
      }
    }

    method NextDown(cur: nat, list: seq<int>, i: nat, ghost before: seq<FmtNode>, ghost v: View, ghost base: seq<int>)
      returns (node: nat)
      requires Valid() && i < |list| && cur < |nodes| && Grown(before, nodes)
      requires Path(nodes, cur) == base + Reversed(list[i + 1..])
      requires view == TouchAll(v, base, Reversed(list[i + 1..]), metricNum)
      modifies this`nodes, this`nodeCount, this`lastId, this`view
      ensures Valid() && node < |nodes| && Grown(before, nodes)
      ensures Path(nodes, node) == base + Reversed(list[i..])
      ensures view == TouchAll(v, base, Reversed(list[i..]), metricNum)
    {
      ghost var middle := nodes;
      ReversedTail(list, i);
      TouchAllSnoc(v, base, Reversed(list[i + 1..]), list[i], metricNum);
      node := StepDown(cur, list[i]);
      GrownTrans(before, middle, nodes);
    }

    /** The inner loop of `hpcrun_insert_path`: a calling vector is walked from its outer end. */
    method WalkVector(start: nat, list: seq<int>) returns (cur: nat)
      requires Valid() && start < |nodes|
      modifies this`nodes, this`nodeCount, this`lastId, this`view
      ensures Valid() && Grown(old(nodes), nodes) && cur < |nodes|
      ensures Path(nodes, cur) == Path(old(nodes), start) + Reversed(list)
      ensures view == TouchAll(old(view), Path(old(nodes), start), Reversed(list), metricNum)
    {
      cur := start;
      var i := |list|;
      ghost var base := Path(nodes, start);
      assert list[i..] == [];
      while i > 0
        invariant i <= |list| && Valid() && Grown(old(nodes), nodes) && cur < |nodes|
        invariant Path(nodes, cur) == base + Reversed(list[i..])
        invariant view == TouchAll(old(view), base, Reversed(list[i..]), metricNum)
      {
        i := i - 1;
        cur := NextDown(cur, list, i, old(nodes), old(view), base);
      }
      assert list[0..] == list;
    }

    /** The end of `hpcrun_insert_path`: the metrics are added to the node reached. */
    method AddMetrics(cur: nat, metrics: seq<nat>)
      requires Valid() && cur < |nodes| && |metrics| <= metricNum
      modifies this`nodes, this`nodeCount, this`lastId, this`view
      ensures Valid() && Extends(old(nodes), nodes) && |nodes| == |old(nodes)|
      ensures view == old(view)[Path(old(nodes), cur) := Plus(old(nodes)[cur].metrics, metrics)]
      ensures forall i :: 0 <= i < |nodes| ==> nodes[i] == old(nodes)[i].(metrics := nodes[i].metrics)
      ensures forall j: nat :: Total(nodes, j) == Total(old(nodes), j) + if j < |metrics| then metrics[j] else 0
    {
      var sum := nodes[cur].metrics;
      for i := 0 to |metrics|
        invariant |sum| == metricNum
        invariant forall j :: 0 <= j < metricNum ==>
                    sum[j] == nodes[cur].metrics[j] + if j < i then metrics[j] else 0
      {
        sum := sum[i := sum[i] + metrics[i]];
      }
      assert sum == Plus(nodes[cur].metrics, metrics);
      AddMetricsOk(nodes, view, lastId, metricNum, cur, sum);
      forall j: nat ensures Total(nodes[cur := nodes[cur].(metrics := sum)], j)
                       == Total(nodes, j) + if j < |metrics| then metrics[j] else 0 {
        TotalUpdate(nodes, cur, nodes[cur].(metrics := sum), j);
      }
      view := view[Path(nodes, cur) := sum];
      nodes := nodes[cur := nodes[cur].(metrics := sum)];
    }

    /** A childless node gets its ID negated. */
    method MarkLeaf(r: nat)
      requires Valid() && r < |nodes| && nodes[r].children == []
      modifies this`nodes
      ensures Valid() && LeavesNegated(old(nodes), nodes, [r])
      ensures nodes == old(nodes)[r := old(nodes)[r].(id := -old(nodes)[r].id)]
    {
      ghost var was := nodes;
      nodes := nodes[r := nodes[r].(id := -nodes[r].id)];
      NegateKeeps(was, view, r);
      NegateOk(was, view, lastId, metricNum, r);
    }

    /** `reset_leaf_node_id`: exactly the childless nodes below `r` have their IDs negated. */
    method ResetLeafNodeId(r: nat)
      requires Valid() && r < |nodes|
      modifies this`nodes
      ensures Valid() && LeavesNegated(old(nodes), nodes, [r])
      decreases |nodes| - r, 2
    {
      if nodes[r].children == [] {
        MarkLeaf(r);
      } else {
        ResetChildren(r);
        NegatedChildren(old(nodes), nodes, r);
      }
    }

    method ResetChildren(r: nat)
      requires Valid() && r < |nodes|
      modifies this`nodes
      ensures Valid() && LeavesNegated(old(nodes), nodes, old(nodes)[r].children)
      decreases |nodes| - r, 1
    {
      ghost var before := nodes;
      var children := nodes[r].children;
      NothingNegated(nodes);
      for k := 0 to |children|
        invariant Valid() && |nodes| == |before| && nodes[r].children == children
        invariant LeavesNegated(before, nodes, children[..k])
      {
        ResetChild(r, k, before);
      }
      assert children[..|children|] == children;
    }

    method ResetChild(r: nat, k: nat, ghost before: seq<FmtNode>)
      requires Valid() && r < |nodes| == |before| && k < |nodes[r].children| && Linked(before)
      requires nodes[r].children == before[r].children && LeavesNegated(before, nodes, before[r].children[..k])
      modifies this`nodes
      ensures Valid() && |nodes| == |before| && nodes[r].children == before[r].children
      ensures LeavesNegated(before, nodes, before[r].children[..k + 1])
      decreases |nodes| - r, 0
    {
      ChildBounds(nodes, r, k);
      ghost var middle := nodes;
      ResetLeafNodeId(nodes[r].children[k]);
      NegateNext(before, middle, nodes, r, k);
    }
  }

  // ---- subtrees, by path prefix ----

  ghost predicate Under(ns: seq<FmtNode>, r: nat, i: nat)
    requires Linked(ns) && r < |ns| && i < |ns|
  {
    Path(ns, r) <= Path(ns, i)
  }

  ghost predicate UnderSome(ns: seq<FmtNode>, rs: seq<nat>, i: nat)
    requires Linked(ns) && i < |ns| && forall k :: 0 <= k < |rs| ==> rs[k] < |ns|
  {
    exists k :: 0 <= k < |rs| && Under(ns, rs[k], i)
  }

  ghost predicate SameButIds(ns: seq<FmtNode>, ns': seq<FmtNode>) {
    |ns| == |ns'| && forall i :: 0 <= i < |ns| ==> ns'[i] == ns[i].(id := ns'[i].id, parentId := ns'[i].parentId)
  }

  lemma SameButIdsPaths(ns: seq<FmtNode>, ns': seq<FmtNode>)
    requires Linked(ns) && Linked(ns') && SameButIds(ns, ns')
    ensures forall i :: 0 <= i < |ns| ==> Path(ns', i) == Path(ns, i)
  {
    forall i | 0 <= i < |ns| ensures Path(ns', i) == Path(ns, i) {
      ExtendsPath(ns, ns', i);
    }
  }

  lemma AddMetricsLinked(ns: seq<FmtNode>, cur: nat, sum: seq<nat>)
    requires Linked(ns) && cur < |ns|
    ensures var ns' := ns[cur := ns[cur].(metrics := sum)];
            Linked(ns') && Extends(ns, ns') && forall i :: 0 <= i < |ns| ==> Path(ns', i) == Path(ns, i)
  {
    var ns' := ns[cur := ns[cur].(metrics := sum)];
    forall i | 0 <= i < |ns'| ensures ParentOk(ns', i) && ChildrenOk(ns', i) {
      assert ParentOk(ns, i) && ChildrenOk(ns, i);
    }
    forall i | 0 <= i < |ns| ensures Path(ns', i) == Path(ns, i) {
      ExtendsPath(ns, ns', i);
    }
  }

  lemma AddMetricsKeeps(ns: seq<FmtNode>, v: View, cur: nat, sum: seq<nat>)
    requires Linked(ns) && Views(ns, v) && cur < |ns|
    ensures var ns' := ns[cur := ns[cur].(metrics := sum)];
            Linked(ns') && Extends(ns, ns') && Views(ns', v[Path(ns, cur) := sum])
  {
    var ns' := ns[cur := ns[cur].(metrics := sum)];
    var v' := v[Path(ns, cur) := sum];
    AddMetricsLinked(ns, cur, sum);
    assert Shown(ns, v, cur);
    assert v'.Keys == v.Keys && |v'| == |v'.Keys| && |v| == |v.Keys|;
    forall i | 0 <= i < |ns'| ensures Shown(ns', v', i) {
      assert Shown(ns, v, i);
      if Path(ns, i) == Path(ns, cur) {
        PathsDiffer(ns, i, cur);
      }
    }
    forall p | p in v' ensures HasPath(ns', p) {
      assert HasPath(ns, p);
      var i :| 0 <= i < |ns| && Path(ns, i) == p;
      assert Path(ns', i) == p;
    }
  }

  lemma AddMetricsOk(ns: seq<FmtNode>, v: View, lastId: int, metricNum: nat, cur: nat, sum: seq<nat>)
    requires TrieOk(ns, v, lastId, metricNum) && cur < |ns| && |sum| == metricNum
    ensures var ns' := ns[cur := ns[cur].(metrics := sum)];
            TrieOk(ns', v[Path(ns, cur) := sum], lastId, metricNum) && Extends(ns, ns')
  {
    AddMetricsKeeps(ns, v, cur, sum);
    UpdateKeepsIds(ns, cur, ns[cur].(metrics := sum), lastId);
  }

  lemma ChildBounds(ns: seq<FmtNode>, r: nat, k: nat)
    requires Linked(ns) && r < |ns| && k < |ns[r].children|
    ensures r < ns[r].children[k] < |ns|
    ensures forall l :: 0 <= l < |ns[r].children| ==> ns[r].children[l] < |ns|
    ensures |Path(ns, ns[r].children[k])| == |Path(ns, r)| + 1
  {
    assert ChildrenOk(ns, r);
    assert ParentOk(ns, ns[r].children[k]);
  }

  lemma UnderNext(ns: seq<FmtNode>, r: nat, k: nat, i: nat)
    requires Linked(ns) && r < |ns| && k < |ns[r].children| && i < |ns|
    requires forall l :: 0 <= l < |ns[r].children| ==> ns[r].children[l] < |ns|
    ensures var cs := ns[r].children;
            && (UnderSome(ns, cs[..k + 1], i) <==> UnderSome(ns, cs[..k], i) || Under(ns, cs[k], i))
            && !(UnderSome(ns, cs[..k], i) && Under(ns, cs[k], i))
  {
    var cs := ns[r].children;
    assert ChildrenOk(ns, r);
    assert cs[..k + 1] == cs[..k] + [cs[k]];
    if Under(ns, cs[k], i) {
      assert Under(ns, cs[..k + 1][k], i);
      if l :| 0 <= l < k && Under(ns, cs[..k][l], i) {
        ChildBounds(ns, r, k);
        ChildBounds(ns, r, l);
        assert Path(ns, cs[k]) == Path(ns, i)[..|Path(ns, r)| + 1] == Path(ns, cs[l]);
        PathsDiffer(ns, cs[k], cs[l]);
      }
    }
    if l :| 0 <= l < k && Under(ns, cs[..k][l], i) {
      assert Under(ns, cs[..k + 1][l], i);
    }
  }

  lemma {:induction false} UnderChildren(ns: seq<FmtNode>, r: nat, i: nat)
    requires Linked(ns) && r < |ns| && i < |ns|
    ensures forall k :: 0 <= k < |ns[r].children| ==> ns[r].children[k] < |ns|
    ensures UnderSome(ns, ns[r].children, i) <==> Under(ns, r, i) && i != r
    decreases i
  {
    assert ChildrenOk(ns, r) && ParentOk(ns, i);
    var cs := ns[r].children;
    if k :| 0 <= k < |cs| && Under(ns, cs[k], i) {
      assert ParentOk(ns, cs[k]);
      ChildBounds(ns, r, k);
      assert Path(ns, r) <= Path(ns, cs[k]);
    }
    if Under(ns, r, i) && i != r {
      if i == 0 {
        PathsDiffer(ns, i, r);
      } else {
        var p := ns[i].parent.value;
        if p == r {
          var k :| 0 <= k < |cs| && cs[k] == i;
          assert Under(ns, cs[k], i);
        } else {
          if |Path(ns, r)| == |Path(ns, i)| {
            PathsDiffer(ns, i, r);
          }
          assert Path(ns, p) == Path(ns, i)[..|Path(ns, i)| - 1];
          UnderChildren(ns, r, p);
          var k :| 0 <= k < |cs| && Under(ns, cs[k], p);
          assert Under(ns, cs[k], i);
        }
      }
    }
  }

  lemma LeafUnder(ns: seq<FmtNode>, r: nat)
    requires Linked(ns) && r < |ns| && ns[r].children == []
    ensures forall i :: 0 <= i < |ns| ==> (Under(ns, r, i) <==> i == r)
  {
    forall i | 0 <= i < |ns| ensures Under(ns, r, i) <==> i == r {
      UnderChildren(ns, r, i);
    }
  }

  /** The nodes differ only in IDs, and only in that childless nodes below `rs` are negated. */
  ghost predicate LeavesNegated(ns: seq<FmtNode>, ns': seq<FmtNode>, rs: seq<nat>)
    requires Linked(ns)
  {
    && SameButIds(ns, ns') && (forall k :: 0 <= k < |rs| ==> rs[k] < |ns|)
    && forall i :: 0 <= i < |ns| ==>
         ns'[i].id == if ns[i].children == [] && UnderSome(ns, rs, i) then -ns[i].id else ns[i].id
  }

  lemma NothingNegated(ns: seq<FmtNode>)
    requires Linked(ns)
    ensures LeavesNegated(ns, ns, [])
  {
  }

  lemma NegateNext(a: seq<FmtNode>, b: seq<FmtNode>, c: seq<FmtNode>, r: nat, k: nat)
    requires Linked(a) && Linked(b) && r < |a| && k < |a[r].children|
    requires LeavesNegated(a, b, a[r].children[..k]) && LeavesNegated(b, c, [a[r].children[k]])
    ensures LeavesNegated(a, c, a[r].children[..k + 1])
  {
    var cs := a[r].children;
    ChildBounds(a, r, k);
    SameButIdsPaths(a, b);
    forall i | 0 <= i < |a|
      ensures c[i].id == if a[i].children == [] && UnderSome(a, cs[..k + 1], i) then -a[i].id else a[i].id
    {
      UnderNext(a, r, k, i);
      UnderOne(b, cs[k], i);
      assert Under(a, cs[k], i) == Under(b, cs[k], i);
    }
  }

  lemma UnderOne(ns: seq<FmtNode>, r: nat, i: nat)
    requires Linked(ns) && r < |ns| && i < |ns|
    ensures UnderSome(ns, [r], i) <==> Under(ns, r, i)
  {
    if Under(ns, r, i) {
      assert Under(ns, [r][0], i);
    }
  }

  lemma NegatedChildren(ns: seq<FmtNode>, ns': seq<FmtNode>, r: nat)
    requires Linked(ns) && r < |ns| && ns[r].children != [] && LeavesNegated(ns, ns', ns[r].children)
    ensures LeavesNegated(ns, ns', [r])
  {
    forall i | 0 <= i < |ns|
      ensures ns'[i].id == if ns[i].children == [] && UnderSome(ns, [r], i) then -ns[i].id else ns[i].id
    {
      UnderChildren(ns, r, i);
      UnderOne(ns, r, i);
    }
  }

  lemma NegateKeeps(ns: seq<FmtNode>, v: View, r: nat)
    requires Linked(ns) && Views(ns, v) && r < |ns| && ns[r].children == []
    ensures var ns' := ns[r := ns[r].(id := -ns[r].id)];
            Linked(ns') && Views(ns', v) && LeavesNegated(ns, ns', [r])
  {
    var ns' := ns[r := ns[r].(id := -ns[r].id)];
    forall i | 0 <= i < |ns'| ensures ParentOk(ns', i) && ChildrenOk(ns', i) {
      assert ParentOk(ns, i) && ChildrenOk(ns, i);
    }
    SameButIdsPaths(ns, ns');
    forall i | 0 <= i < |ns'| ensures Shown(ns', v, i) {
      assert Shown(ns, v, i);
    }
    forall p | p in v ensures HasPath(ns', p) {
      assert HasPath(ns, p);
      var i :| 0 <= i < |ns| && Path(ns, i) == p;
      assert Path(ns', i) == p;
    }
    LeafUnder(ns, r);
    forall i | 0 <= i < |ns| ensures UnderSome(ns, [r], i) <==> i == r {
      UnderOne(ns, r, i);
    }
  }

  lemma NegateOk(ns: seq<FmtNode>, v: View, lastId: int, metricNum: nat, r: nat)
    requires TrieOk(ns, v, lastId, metricNum) && r < |ns| && ns[r].children == []
    ensures TrieOk(ns[r := ns[r].(id := -ns[r].id)], v, lastId, metricNum)
  {
    NegateKeeps(ns, v, r);
    UpdateKeepsIds(ns, r, ns[r].(id := -ns[r].id), lastId);
  }

  /** After the reset of a whole trie whose IDs were all positive, an ID is negative iff its node
      is childless. */
  lemma ResetMarksLeaves(ns: seq<FmtNode>, ns': seq<FmtNode>)
    requires Linked(ns) && LeavesNegated(ns, ns', [0]) && forall i :: 0 <= i < |ns| ==> ns[i].id > 0
    ensures forall i :: 0 <= i < |ns| ==> (ns'[i].id < 0 <==> ns'[i].children == [])
  {
    forall i | 0 <= i < |ns| ensures ns'[i].id < 0 <==> ns'[i].children == [] {
      UnderOne(ns, 0, i);
      assert Path(ns, 0) <= Path(ns, i);
    }
  }
}
