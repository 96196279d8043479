/** The calling context tree of one thread flattened into the viewer's instruction-pointer trie. */
module CctFlatten {
  import opened Options
  import opened SplayTree
  import opened FlushMachine
  import opened Cct
  import opened CctHandles
  import T = FmtTrie

  // ---- paths of program counters ----

  /** The program counters from the outermost caller down to the handle's own instruction. */
  ghost function PcPath(shadows: seq<Shadow>, s: Store, h: nat): seq<int>
    requires Inv(shadows, s) && FIRST_HANDLE <= h < s.idle
  {
    T.Reversed(CallingIps(shadows, s, h))
  }

  /** The handle from which a block calls. */
  ghost function EndOf(s: Store, n: nat): (h: nat)
    requires Layout(s) && n < |s.nodes|
    ensures FIRST_HANDLE <= h < s.idle
  {
    LayoutBounds(s);
    EndHandle(s.nodes[n])
  }

  lemma PcPathStep(shadows: seq<Shadow>, s: Store, n: nat, i: nat)
    requires Inv(shadows, s) && n < |s.nodes| && s.nodes[n].parent.Some? && i < s.nodes[n].slots
    ensures FIRST_HANDLE <= s.nodes[n].start + i < s.idle && s.nodes[n].parent.value < n
    ensures s.nodes[n].key < |shadows| && i < |shadows[s.nodes[n].key].ips|
    ensures PcPath(shadows, s, s.nodes[n].start + i)
            == PcPath(shadows, s, EndOf(s, s.nodes[n].parent.value)) + [shadows[s.nodes[n].key].ips[i]]
  {
    LayoutBounds(s);
    OwnerOfHandle(s, n, s.nodes[n].start + i);
    assert Keyed(shadows, s.nodes[n]);
    var h := s.nodes[n].start + i;
    assert CallingIps(shadows, s, h)[1..] == CallingIps(shadows, s, CallerOf(s, h));
  }

  // ---- the order of visits ----

  /** One arrival at an instruction: its handle, its path, and whether it has no callees. */
  datatype Visit = Visit(handle: nat, path: seq<int>, leaf: bool)

  ghost predicate Within(tree: Tree<Option<nat>>, whole: Tree<Option<nat>>) {
    forall e <- Inorder(tree) :: e in Inorder(whole)
  }

  lemma WithinParts(tree: Tree<Option<nat>>, whole: Tree<Option<nat>>)
    requires tree.Node? && Within(tree, whole)
    ensures Within(tree.left, whole) && Within(tree.right, whole) && Entry(tree.key, tree.value) in Inorder(whole)
  {
    assert Entry(tree.key, tree.value) in Inorder(tree);
  }

  /** Only the last instruction of a block can have callees. */
  function CalleesAt(s: Store, n: nat, i: nat): Tree<Option<nat>>
    requires n < |s.nodes| && i < s.nodes[n].slots
  {
    if i == s.nodes[n].slots - 1 then s.nodes[n].callees else Leaf
  }

  /** The block in a callee tree's root. */
  lemma PayloadOf(shadows: seq<Shadow>, s: Store, caller: nat, tree: Tree<Option<nat>>)
    requires Inv(shadows, s) && caller < |s.nodes| && tree.Node? && Within(tree, s.nodes[caller].callees)
    ensures tree.value.Some? && caller < tree.value.value < |s.nodes| && s.nodes[tree.value.value].parent == Some(caller)
    ensures Within(tree.left, s.nodes[caller].callees) && Within(tree.right, s.nodes[caller].callees)
  {
    WithinParts(tree, s.nodes[caller].callees);
    assert CalleesOf(s, caller);
  }

  ghost function TreeVisits(shadows: seq<Shadow>, s: Store, caller: nat, tree: Tree<Option<nat>>): seq<Visit>
    requires Inv(shadows, s) && caller < |s.nodes| && Within(tree, s.nodes[caller].callees)
    decreases |s.nodes| - caller, Height(tree), 0
  {
    if tree.Leaf? then [] else
    PayloadOf(shadows, s, caller, tree);
    var n := tree.value.value;
    TreeVisits(shadows, s, caller, tree.left)
    + NodeVisits(shadows, s, n, s.nodes[n].slots)
    + TreeVisits(shadows, s, caller, tree.right)
  }

  /** The visits caused by the first `k` instructions of a block. */
  ghost function NodeVisits(shadows: seq<Shadow>, s: Store, n: nat, k: nat): seq<Visit>
    requires Inv(shadows, s) && n < |s.nodes| && k <= s.nodes[n].slots
    decreases |s.nodes| - n, Height(s.nodes[n].callees) + 1, k
  {
    if k == 0 then [] else NodeVisits(shadows, s, n, k - 1) + SlotVisits(shadows, s, n, k - 1)
  }

  ghost function SlotVisits(shadows: seq<Shadow>, s: Store, n: nat, i: nat): seq<Visit>
    requires Inv(shadows, s) && n < |s.nodes| && i < s.nodes[n].slots
    decreases |s.nodes| - n, Height(s.nodes[n].callees) + 1, 0
  {
    LayoutBounds(s);
    var h := s.nodes[n].start + i;
    [Visit(h, PcPath(shadows, s, h), CalleesAt(s, n, i).Leaf?)] + TreeVisits(shadows, s, n, CalleesAt(s, n, i))
  }

  // ---- the first visit decides the sign of an ID ----

  type Marks = map<seq<int>, bool>

  function Mark(m: Marks, v: Visit): Marks {
    if v.path in m then m else m[v.path := v.leaf]
  }

  ghost function Marked(m: Marks, visits: seq<Visit>): Marks {
    Fold(Mark, m, visits)
  }

  /** The trie has a node for each path, with a negative ID iff the path is marked, and with zero metrics. */
  ghost predicate Signs(ns: seq<T.FmtNode>, m: Marks)
    requires T.Linked(ns)
  {
    && (forall i :: 0 <= i < |ns| ==> Signed(ns, m, i))
    && (forall p :: p in m ==> T.HasPath(ns, p))
  }

  ghost predicate Signed(ns: seq<T.FmtNode>, m: Marks, i: nat)
    requires T.Linked(ns) && i < |ns|
  {
    && T.Path(ns, i) in m && ns[i].id != 0 && (ns[i].id < 0 <==> m[T.Path(ns, i)])
    && ns[i].metrics == T.Zeros(|ns[i].metrics|)
  }

  lemma SignsExtended(ns: seq<T.FmtNode>, ns': seq<T.FmtNode>, m: Marks, path: seq<int>, leaf: bool)
    requires T.Linked(ns) && T.Linked(ns') && Signs(ns, m) && T.Extends(ns, ns') && |ns'| == |ns| + 1 && path !in m
    requires forall i :: 0 <= i < |ns| ==> ns'[i].id == ns[i].id && ns'[i].metrics == ns[i].metrics
    requires T.Path(ns', |ns|) == path && ns'[|ns|].id != 0 && (ns'[|ns|].id < 0 <==> leaf)
    requires ns'[|ns|].metrics == T.Zeros(|ns'[|ns|].metrics|)
    ensures Signs(ns', m[path := leaf])
  {
    var m' := m[path := leaf];
    forall i | 0 <= i < |ns'| ensures Signed(ns', m', i) {
      if i < |ns| {
        assert Signed(ns, m, i);
        T.ExtendsPath(ns, ns', i);
      }
    }
    forall p | p in m' ensures T.HasPath(ns', p) {
      if p == path {
        assert T.Path(ns', |ns|) == p;
      } else {
        assert T.HasPath(ns, p);
        var i :| 0 <= i < |ns| && T.Path(ns, i) == p;
        T.ExtendsPath(ns, ns', i);
      }
    }
  }

  // ---- the traversal ----

  /** A new child for one instruction, negative when nothing is called from there. */
  method NewChild(t: T.Trie, cur: nat, addr: int, leaf: bool, ghost m: Marks) returns (node: nat)
    requires t.Valid() && cur < |t.nodes| && T.Lacks(t.nodes, cur, addr) && Signs(t.nodes, m)
    modifies t`nodes, t`nodeCount, t`lastId, t`view
    ensures t.Valid() && T.Extends(old(t.nodes), t.nodes) && node < |t.nodes|
    ensures T.Path(t.nodes, node) == T.Path(old(t.nodes), cur) + [addr]
    ensures T.Path(t.nodes, node) !in m && Signs(t.nodes, m[T.Path(t.nodes, node) := leaf])
  {
    ghost var before := t.nodes;
    ghost var path := T.Path(t.nodes, cur) + [addr];
    NotMarked(t.nodes, t.view, m, path);
    node := t.ConstructIpNode(cur, addr);
    ghost var middle := t.nodes;
    if leaf {
      t.MarkLeaf(node);
      T.ExtendsPath(middle, t.nodes, node);
    }
    SignsExtended(before, t.nodes, m, path, leaf);
  }

  lemma NotMarked(ns: seq<T.FmtNode>, v: T.View, m: Marks, path: seq<int>)
    requires T.Linked(ns) && Signs(ns, m) && T.Views(ns, v)
    ensures path in m <==> path in v
  {
    if path in m {
      assert T.HasPath(ns, path);
      var i :| 0 <= i < |ns| && T.Path(ns, i) == path;
      assert T.Shown(ns, v, i);
    }
    if path in v {
      assert T.HasPath(ns, path);
      var i :| 0 <= i < |ns| && T.Path(ns, i) == path;
      assert Signed(ns, m, i);
    }
  }

  /** `tranverseIPs` */
  method TraverseIps(shadows: seq<Shadow>, s: Store, t: T.Trie, cur: nat, ghost caller: nat, tree: Tree<Option<nat>>,
                     ghost m: Marks)
    returns (ghost m': Marks)
    requires Inv(shadows, s) && caller < |s.nodes| && Within(tree, s.nodes[caller].callees)
    requires t.Valid() && cur < |t.nodes| && Signs(t.nodes, m)
    requires T.Path(t.nodes, cur) == PcPath(shadows, s, EndOf(s, caller))
    modifies t`nodes, t`nodeCount, t`lastId, t`view
    ensures t.Valid() && T.Extends(old(t.nodes), t.nodes) && Signs(t.nodes, m')
    ensures T.Path(t.nodes, cur) == T.Path(old(t.nodes), cur)
    ensures m' == Marked(m, TreeVisits(shadows, s, caller, tree))
    decreases |s.nodes| - caller, Height(tree), 0
  {
    if tree.Leaf? {
      return m;
    }
    PayloadOf(shadows, s, caller, tree);
    MarkedTree(shadows, s, caller, tree, m);
    ghost var n0 := t.nodes;
    m' := TraverseIps(shadows, s, t, cur, caller, tree.left, m);
    ghost var n1 := t.nodes;
    m' := FlattenBlock(shadows, s, t, cur, tree.value.value, m');
    T.ExtendsTrans(n0, n1, t.nodes);
    n1 := t.nodes;
    m' := TraverseIps(shadows, s, t, cur, caller, tree.right, m');
    T.ExtendsTrans(n0, n1, t.nodes);
  }

  lemma MarkedTree(shadows: seq<Shadow>, s: Store, caller: nat, tree: Tree<Option<nat>>, m: Marks)
    requires Inv(shadows, s) && caller < |s.nodes| && tree.Node? && Within(tree, s.nodes[caller].callees)
    requires tree.value.Some? && tree.value.value < |s.nodes|
    requires Within(tree.left, s.nodes[caller].callees) && Within(tree.right, s.nodes[caller].callees)
    ensures var n := tree.value.value;
            Marked(Marked(Marked(m, TreeVisits(shadows, s, caller, tree.left)), NodeVisits(shadows, s, n, s.nodes[n].slots)),
                   TreeVisits(shadows, s, caller, tree.right))
            == Marked(m, TreeVisits(shadows, s, caller, tree))
  {
    var n := tree.value.value;
    var a, b, c := TreeVisits(shadows, s, caller, tree.left), NodeVisits(shadows, s, n, s.nodes[n].slots),
                   TreeVisits(shadows, s, caller, tree.right);
    FoldAppend(Mark, m, a, b);
    FoldAppend(Mark, m, a + b, c);
  }

  ghost predicate IsCallerPath(shadows: seq<Shadow>, s: Store, n: nat, path: seq<int>)
    requires Inv(shadows, s) && n < |s.nodes|
  {
    && s.nodes[n].parent.Some? && s.nodes[n].parent.value < |s.nodes|
    && path == PcPath(shadows, s, EndOf(s, s.nodes[n].parent.value))
  }

  /** The trie has grown from `n0`, has the signs `m`, and `cur` is still at its path. */
  ghost predicate Grows(t: T.Trie, n0: seq<T.FmtNode>, m: Marks, cur: nat, path: seq<int>)
    reads t
  {
    t.Valid() && T.Extends(n0, t.nodes) && Signs(t.nodes, m) && cur < |t.nodes| && T.Path(t.nodes, cur) == path
  }

  /** The instructions of one called block, in slot order. */
  method FlattenBlock(shadows: seq<Shadow>, s: Store, t: T.Trie, cur: nat, n: nat, ghost m: Marks)
    returns (ghost m': Marks)
    requires Inv(shadows, s) && n < |s.nodes| && t.Valid() && cur < |t.nodes| && Signs(t.nodes, m)
    requires IsCallerPath(shadows, s, n, T.Path(t.nodes, cur))
    modifies t`nodes, t`nodeCount, t`lastId, t`view
    ensures t.Valid() && T.Extends(old(t.nodes), t.nodes) && Signs(t.nodes, m')
    ensures T.Path(t.nodes, cur) == T.Path(old(t.nodes), cur)
    ensures m' == Marked(m, NodeVisits(shadows, s, n, s.nodes[n].slots))
    decreases |s.nodes| - n, Height(s.nodes[n].callees) + 1, 1
  {
    ghost var n0, path := t.nodes, T.Path(t.nodes, cur);
    m' := m;
    NoVisits(shadows, s, n, m);
    var i := 0;
    while i < s.nodes[n].slots
      invariant 0 <= i <= s.nodes[n].slots && Grows(t, n0, m', cur, path)
      invariant m' == Marked(m, NodeVisits(shadows, s, n, i))
    {
      m' := FlattenSlot(shadows, s, t, cur, n, i, path, n0, m, m');
      i := i + 1;
    }
  }

  lemma NoVisits(shadows: seq<Shadow>, s: Store, n: nat, m: Marks)
    requires Inv(shadows, s) && n < |s.nodes|
    ensures Marked(m, NodeVisits(shadows, s, n, 0)) == m
  {
  }

  /** The next visit of a block, and what it does to the marks of the visits before it. */
  lemma VisitOf(shadows: seq<Shadow>, s: Store, n: nat, i: nat, path: seq<int>, m: Marks) returns (visit: Visit)
    requires Inv(shadows, s) && n < |s.nodes| && i < s.nodes[n].slots && IsCallerPath(shadows, s, n, path)
    ensures s.nodes[n].key < |shadows| && i < |shadows[s.nodes[n].key].ips|
    ensures visit.path == path + [shadows[s.nodes[n].key].ips[i]] && visit.leaf == CalleesAt(s, n, i).Leaf?
    ensures CalleesAt(s, n, i).Node? ==> visit.path == PcPath(shadows, s, EndOf(s, n))
    ensures Within(CalleesAt(s, n, i), s.nodes[n].callees) && Height(CalleesAt(s, n, i)) <= Height(s.nodes[n].callees)
    ensures Marked(Mark(Marked(m, NodeVisits(shadows, s, n, i)), visit), TreeVisits(shadows, s, n, CalleesAt(s, n, i)))
            == Marked(m, NodeVisits(shadows, s, n, i + 1))
  {
    PcPathStep(shadows, s, n, i);
    MarkedSlot(shadows, s, n, i, Marked(m, NodeVisits(shadows, s, n, i)));
    var h := s.nodes[n].start + i;
    visit := Visit(h, PcPath(shadows, s, h), CalleesAt(s, n, i).Leaf?);
    FoldAppend(Mark, m, NodeVisits(shadows, s, n, i), SlotVisits(shadows, s, n, i));
  }

  /** One instruction: merged into the child with its address (`mergeIP`), or given a new one. */
  method FlattenSlot(shadows: seq<Shadow>, s: Store, t: T.Trie, cur: nat, n: nat, i: nat,
                     ghost path: seq<int>, ghost n0: seq<T.FmtNode>, ghost m0: Marks, ghost m: Marks)
    returns (ghost m': Marks)
    requires Inv(shadows, s) && n < |s.nodes| && i < s.nodes[n].slots && IsCallerPath(shadows, s, n, path)
    requires Grows(t, n0, m, cur, path)
    requires m == Marked(m0, NodeVisits(shadows, s, n, i))
    modifies t`nodes, t`nodeCount, t`lastId, t`view
    ensures Grows(t, n0, m', cur, path)
    ensures m' == Marked(m0, NodeVisits(shadows, s, n, i + 1))
    decreases |s.nodes| - n, Height(s.nodes[n].callees) + 1, 0
  {
    ghost var before := t.nodes;
    ghost var visit := VisitOf(shadows, s, n, i, path, m0);
    m' := MergeOrAdd(shadows, s, t, cur, shadows[s.nodes[n].key].ips[i], n, CalleesAt(s, n, i), visit, m);
    T.ExtendsTrans(n0, before, t.nodes);
  }

  method MergeOrAdd(shadows: seq<Shadow>, s: Store, t: T.Trie, cur: nat, addr: int, ghost n: nat,
                    callees: Tree<Option<nat>>, ghost visit: Visit, ghost m: Marks)
    returns (ghost m': Marks)
    requires Inv(shadows, s) && n < |s.nodes| && Within(callees, s.nodes[n].callees)
    requires t.Valid() && cur < |t.nodes| && Signs(t.nodes, m)
    requires visit.path == T.Path(t.nodes, cur) + [addr] && visit.leaf == callees.Leaf?
    requires callees.Node? ==> visit.path == PcPath(shadows, s, EndOf(s, n))
    modifies t`nodes, t`nodeCount, t`lastId, t`view
    ensures t.Valid() && T.Extends(old(t.nodes), t.nodes) && Signs(t.nodes, m')
    ensures T.Path(t.nodes, cur) == T.Path(old(t.nodes), cur)
    ensures m' == Marked(Mark(m, visit), TreeVisits(shadows, s, n, callees))
    decreases |s.nodes| - n, Height(callees), 1
  {
    m' := Mark(m, visit);
    var child := Arrive(t, cur, addr, callees.Leaf?, m);
    if callees.Node? {
      ghost var before := t.nodes;
      m' := TraverseIps(shadows, s, t, child, n, callees, m');
      T.ExtendsPath(before, t.nodes, cur);
    }
  }

  /** Finds the child with the address of one instruction, or makes it. */
  method Arrive(t: T.Trie, cur: nat, addr: int, leaf: bool, ghost m: Marks) returns (child: nat)
    requires t.Valid() && cur < |t.nodes| && Signs(t.nodes, m)
    modifies t`nodes, t`nodeCount, t`lastId, t`view
    ensures t.Valid() && T.Extends(old(t.nodes), t.nodes) && child < |t.nodes|
    ensures T.Path(t.nodes, cur) == T.Path(old(t.nodes), cur)
    ensures T.Path(t.nodes, child) == T.Path(old(t.nodes), cur) + [addr]
    ensures Signs(t.nodes, Mark(m, Visit(0, T.Path(t.nodes, child), leaf)))
  {
    var found := t.FindSameIp(cur, addr);
    if found.Some? {
      child := found.value;
      assert Signed(t.nodes, m, child);
    } else {
      ghost var before := t.nodes;
      child := NewChild(t, cur, addr, leaf, m);
      T.ExtendsPath(before, t.nodes, cur);
    }
  }

  lemma MarkedSlot(shadows: seq<Shadow>, s: Store, n: nat, i: nat, m: Marks)
    requires Inv(shadows, s) && n < |s.nodes| && i < s.nodes[n].slots && FIRST_HANDLE <= s.nodes[n].start + i < s.idle
    ensures var h, callees := s.nodes[n].start + i, CalleesAt(s, n, i);
            Marked(m, SlotVisits(shadows, s, n, i))
            == Marked(Mark(m, Visit(h, PcPath(shadows, s, h), callees.Leaf?)), TreeVisits(shadows, s, n, callees))
  {
    var h, callees := s.nodes[n].start + i, CalleesAt(s, n, i);
    MarkedCons(m, Visit(h, PcPath(shadows, s, h), callees.Leaf?), TreeVisits(shadows, s, n, callees));
  }

  lemma MarkedCons(m: Marks, v: Visit, vs: seq<Visit>)
    ensures Marked(Mark(m, v), vs) == Marked(m, [v] + vs)
  {
    FoldSnoc(Mark, m, [], v);
    assert [] + [v] == [v];
    FoldAppend(Mark, m, [v], vs);
  }

  /** The tree-building part of `write_thread_all_cct_hpcrun_format`; the root block has one slot.
      The nodes are counted on top of what the thread's counter holds already. */
  method FlattenThread(shadows: seq<Shadow>, s: Store, root: nat, metricNum: nat, lastId: nat, counted: nat) returns (t: T.Trie)
    requires Inv(shadows, s) && root < |s.nodes| && s.nodes[root].parent == None
    ensures fresh(t) && t.Valid() && t.base == counted && Signs(t.nodes, Marked(map[], ThreadVisits(shadows, s, root)))
  {
    RootVisit(shadows, s, root);
    var callees := s.nodes[root].callees;
    t := new T.Trie(metricNum, lastId, counted);
    ghost var m: Marks := map[[] := callees.Leaf?];
    if callees.Node? {
      assert T.Path(t.nodes, 0) == [];
      m := TraverseIps(shadows, s, t, 0, root, callees, m);
    } else {
      t.MarkLeaf(0);
      assert T.Path(t.nodes, 0) == [];
    }
  }

  // ---- what is visited ----

  ghost function ThreadVisits(shadows: seq<Shadow>, s: Store, root: nat): seq<Visit>
    requires Inv(shadows, s) && root < |s.nodes|
  {
    NodeVisits(shadows, s, root, s.nodes[root].slots)
  }

  lemma RootVisit(shadows: seq<Shadow>, s: Store, root: nat)
    requires Inv(shadows, s) && root < |s.nodes| && s.nodes[root].parent == None
    ensures PcPath(shadows, s, EndOf(s, root)) == []
    ensures Marked(map[], ThreadVisits(shadows, s, root))
            == Marked(map[[] := s.nodes[root].callees.Leaf?], TreeVisits(shadows, s, root, s.nodes[root].callees))
  {
    assert Keyed(shadows, s.nodes[root]);
    OwnerOfHandle(s, root, EndOf(s, root));
    var v := Visit(s.nodes[root].start, [], s.nodes[root].callees.Leaf?);
    var rest := TreeVisits(shadows, s, root, s.nodes[root].callees);
    assert SlotVisits(shadows, s, root, 0) == [v] + rest;
    assert NodeVisits(shadows, s, root, 1) == NodeVisits(shadows, s, root, 0) + SlotVisits(shadows, s, root, 0) == [v] + rest;
    MarkedCons(map[], v, rest);
  }

  /** `m` is `n` or is called from below it. */
  ghost predicate IsBelow(s: Store, n: nat, m: nat)
    requires Parents(s) && m < |s.nodes|
    decreases m
  {
    m == n || (s.nodes[m].parent.Some? && IsBelow(s, n, s.nodes[m].parent.value))
  }

  ghost predicate BelowTree(s: Store, tree: Tree<Option<nat>>, m: nat)
    requires Parents(s) && m < |s.nodes|
  {
    exists e <- Inorder(tree) :: e.value.Some? && IsBelow(s, e.value.value, m)
  }

  lemma {:induction false} BelowCallees(shadows: seq<Shadow>, s: Store, n: nat, m: nat)
    requires Inv(shadows, s) && n < |s.nodes| && m < |s.nodes| && IsBelow(s, n, m) && m != n
    ensures BelowTree(s, s.nodes[n].callees, m)
    decreases m
  {
    assert Registered(s, m);
    var p := s.nodes[m].parent.value;
    if p != n {
      BelowCallees(shadows, s, n, p);
      var e :| e in Inorder(s.nodes[n].callees) && e.value.Some? && IsBelow(s, e.value.value, p);
      assert IsBelow(s, e.value.value, m);
    }
  }

  lemma {:induction false} BelowTrans(s: Store, a: nat, b: nat, m: nat)
    requires Parents(s) && m < |s.nodes| && b < |s.nodes| && IsBelow(s, b, m) && s.nodes[b].parent == Some(a)
    ensures IsBelow(s, a, m)
    decreases m
  {
    if m != b {
      BelowTrans(s, a, b, s.nodes[m].parent.value);
    }
  }

  lemma {:induction false} BelowRoot(s: Store, root: nat, m: nat)
    requires Parents(s) && m < |s.nodes| && root < |s.nodes| && s.nodes[root].parent == None
    ensures IsBelow(s, root, m) <==> RootOf(s, m) == root
    decreases m
  {
    if s.nodes[m].parent.Some? {
      BelowRoot(s, root, s.nodes[m].parent.value);
    }
  }

  ghost predicate VisitOk(shadows: seq<Shadow>, s: Store, n: nat, v: Visit)
    requires Inv(shadows, s)
  {
    && FIRST_HANDLE <= v.handle < s.idle && Owns(s, s.owners[v.handle].value, v.handle)
    && IsBelow(s, n, s.owners[v.handle].value)
    && v.path == PcPath(shadows, s, v.handle)
    && var m := s.owners[v.handle].value; v.leaf == CalleesAt(s, m, v.handle - s.nodes[m].start).Leaf?
  }

  lemma {:induction false} TreeVisitsOk(shadows: seq<Shadow>, s: Store, caller: nat, tree: Tree<Option<nat>>, v: Visit)
    requires Inv(shadows, s) && caller < |s.nodes| && Within(tree, s.nodes[caller].callees)
    requires v in TreeVisits(shadows, s, caller, tree)
    ensures VisitOk(shadows, s, caller, v)
    decreases |s.nodes| - caller, Height(tree), 0
  {
    PayloadOf(shadows, s, caller, tree);
    var n := tree.value.value;
    if v in NodeVisits(shadows, s, n, s.nodes[n].slots) {
      NodeVisitsOk(shadows, s, n, s.nodes[n].slots, v);
      BelowTrans(s, caller, n, s.owners[v.handle].value);
    } else if v in TreeVisits(shadows, s, caller, tree.left) {
      TreeVisitsOk(shadows, s, caller, tree.left, v);
    } else {
      TreeVisitsOk(shadows, s, caller, tree.right, v);
    }
  }

  lemma {:induction false} NodeVisitsOk(shadows: seq<Shadow>, s: Store, n: nat, k: nat, v: Visit)
    requires Inv(shadows, s) && n < |s.nodes| && k <= s.nodes[n].slots && v in NodeVisits(shadows, s, n, k)
    ensures VisitOk(shadows, s, n, v)
    decreases |s.nodes| - n, Height(s.nodes[n].callees) + 1, k
  {
    if v in NodeVisits(shadows, s, n, k - 1) {
      NodeVisitsOk(shadows, s, n, k - 1, v);
    } else if v in TreeVisits(shadows, s, n, CalleesAt(s, n, k - 1)) {
      TreeVisitsOk(shadows, s, n, CalleesAt(s, n, k - 1), v);
    } else {
      OwnerOfHandle(s, n, s.nodes[n].start + k - 1);
    }
  }

  ghost predicate Visited(visits: seq<Visit>, h: nat) {
    exists k :: 0 <= k < |visits| && visits[k].handle == h
  }

  lemma VisitedAppend(xs: seq<Visit>, ys: seq<Visit>, h: nat)
    requires Visited(xs, h) || Visited(ys, h)
    ensures Visited(xs + ys, h)
  {
    if Visited(xs, h) {
      var k :| 0 <= k < |xs| && xs[k].handle == h;
      assert (xs + ys)[k].handle == h;
    } else {
      var k :| 0 <= k < |ys| && ys[k].handle == h;
      assert (xs + ys)[|xs| + k].handle == h;
    }
  }

  lemma {:induction false} TreeVisitsAll(shadows: seq<Shadow>, s: Store, caller: nat, tree: Tree<Option<nat>>, h: nat)
    requires Inv(shadows, s) && caller < |s.nodes| && Within(tree, s.nodes[caller].callees)
    requires FIRST_HANDLE <= h < s.idle && Owns(s, s.owners[h].value, h) && BelowTree(s, tree, s.owners[h].value)
    ensures Visited(TreeVisits(shadows, s, caller, tree), h)
    decreases |s.nodes| - caller, Height(tree), 0
  {
    var e :| e in Inorder(tree) && e.value.Some? && IsBelow(s, e.value.value, s.owners[h].value);
    PayloadOf(shadows, s, caller, tree);
    var n := tree.value.value;
    var a, b, c := TreeVisits(shadows, s, caller, tree.left), NodeVisits(shadows, s, n, s.nodes[n].slots),
                   TreeVisits(shadows, s, caller, tree.right);
    if e in Inorder(tree.left) {
      TreeVisitsAll(shadows, s, caller, tree.left, h);
      VisitedAppend(a, b, h);
    } else if e in Inorder(tree.right) {
      TreeVisitsAll(shadows, s, caller, tree.right, h);
    } else {
      NodeVisitsAll(shadows, s, n, s.nodes[n].slots, h);
      VisitedAppend(a, b, h);
    }
    VisitedAppend(a + b, c, h);
  }

  lemma {:induction false} NodeVisitsAll(shadows: seq<Shadow>, s: Store, n: nat, k: nat, h: nat)
    requires Inv(shadows, s) && n < |s.nodes| && k <= s.nodes[n].slots
    requires FIRST_HANDLE <= h < s.idle && Owns(s, s.owners[h].value, h) && IsBelow(s, n, s.owners[h].value)
    requires if s.owners[h].value == n then h < s.nodes[n].start + k else k == s.nodes[n].slots
    ensures Visited(NodeVisits(shadows, s, n, k), h)
    decreases |s.nodes| - n, Height(s.nodes[n].callees) + 1, k
  {
    var rest, slot := NodeVisits(shadows, s, n, k - 1), SlotVisits(shadows, s, n, k - 1);
    if s.owners[h].value != n {
      BelowCallees(shadows, s, n, s.owners[h].value);
      TreeVisitsAll(shadows, s, n, s.nodes[n].callees, h);
      VisitedAppend([slot[0]], TreeVisits(shadows, s, n, s.nodes[n].callees), h);
    } else if h == s.nodes[n].start + k - 1 {
      assert slot[0].handle == h;
    } else {
      NodeVisitsAll(shadows, s, n, k - 1, h);
    }
    VisitedAppend(rest, slot, h);
  }

  // ---- what the marks say ----

  /** The `k`th visit is the first at its path. */
  ghost predicate IsFirst(visits: seq<Visit>, k: int) {
    0 <= k < |visits| && forall j :: 0 <= j < k ==> visits[j].path != visits[k].path
  }

  lemma {:induction false} MarkedAt(visits: seq<Visit>, p: seq<int>)
    ensures var m := Marked(map[], visits);
            && (p in m <==> exists k :: 0 <= k < |visits| && visits[k].path == p)
            && (p in m ==> exists k :: IsFirst(visits, k) && visits[k].path == p && visits[k].leaf == m[p])
  {
    if visits != [] {
      var last := |visits| - 1;
      var front := visits[..last];
      MarkedAt(front, p);
      if p in Marked(map[], front) {
        var k :| IsFirst(front, k) && front[k].path == p && front[k].leaf == Marked(map[], front)[p];
        assert IsFirst(visits, k);
      } else if visits[last].path == p {
        assert IsFirst(visits, last);
      }
    }
  }

  // ---- the flattened trie ----

  ghost predicate InThread(s: Store, root: nat, h: nat)
    requires Parents(s) && Owned(s)
  {
    FIRST_HANDLE <= h < s.idle && Owns(s, s.owners[h].value, h) && RootOf(s, s.owners[h].value) == root
  }

  ghost predicate SpelledBy(shadows: seq<Shadow>, s: Store, root: nat, p: seq<int>, h: nat)
    requires Inv(shadows, s)
  {
    InThread(s, root, h) && PcPath(shadows, s, h) == p
  }

  lemma ThreadVisit(shadows: seq<Shadow>, s: Store, root: nat, k: nat)
    requires Inv(shadows, s) && root < |s.nodes| && s.nodes[root].parent == None
    requires k < |ThreadVisits(shadows, s, root)|
    ensures var v := ThreadVisits(shadows, s, root)[k];
            VisitOk(shadows, s, root, v) && InThread(s, root, v.handle) && PcPath(shadows, s, v.handle) == v.path
  {
    var v := ThreadVisits(shadows, s, root)[k];
    NodeVisitsOk(shadows, s, root, s.nodes[root].slots, v);
    BelowRoot(s, root, s.owners[v.handle].value);
  }

  lemma ThreadHandle(shadows: seq<Shadow>, s: Store, root: nat, h: nat) returns (k: nat)
    requires Inv(shadows, s) && root < |s.nodes| && s.nodes[root].parent == None && InThread(s, root, h)
    ensures k < |ThreadVisits(shadows, s, root)| && ThreadVisits(shadows, s, root)[k].handle == h
    ensures VisitOk(shadows, s, root, ThreadVisits(shadows, s, root)[k])
  {
    BelowRoot(s, root, s.owners[h].value);
    NodeVisitsAll(shadows, s, root, s.nodes[root].slots, h);
    k :| k < |ThreadVisits(shadows, s, root)| && ThreadVisits(shadows, s, root)[k].handle == h;
    ThreadVisit(shadows, s, root, k);
  }

  /** The paths of the trie are exactly the program-counter paths of the thread's handles. */
  lemma FlatPaths(shadows: seq<Shadow>, s: Store, root: nat, ns: seq<T.FmtNode>, p: seq<int>)
    requires Inv(shadows, s) && root < |s.nodes| && s.nodes[root].parent == None
    requires T.Linked(ns) && Signs(ns, Marked(map[], ThreadVisits(shadows, s, root)))
    ensures T.HasPath(ns, p) <==> exists h :: SpelledBy(shadows, s, root, p, h)
  {
    var visits := ThreadVisits(shadows, s, root);
    var m := Marked(map[], visits);
    MarkedAt(visits, p);
    if T.HasPath(ns, p) {
      var i :| 0 <= i < |ns| && T.Path(ns, i) == p;
      assert Signed(ns, m, i);
      var k :| 0 <= k < |visits| && visits[k].path == p;
      ThreadVisit(shadows, s, root, k);
      assert SpelledBy(shadows, s, root, p, visits[k].handle);
    }
    if h :| SpelledBy(shadows, s, root, p, h) {
      var k := ThreadHandle(shadows, s, root, h);
      assert p in m;
    }
  }

  /** A node is negative iff nothing was called from the first instruction seen on its path. */
  lemma FlatSigns(shadows: seq<Shadow>, s: Store, root: nat, ns: seq<T.FmtNode>, i: nat)
    requires Inv(shadows, s) && root < |s.nodes| && s.nodes[root].parent == None && i < |ns|
    requires T.Linked(ns) && Signs(ns, Marked(map[], ThreadVisits(shadows, s, root)))
    ensures var visits := ThreadVisits(shadows, s, root);
            exists k :: IsFirst(visits, k) && visits[k].path == T.Path(ns, i) && (ns[i].id < 0 <==> visits[k].leaf)
  {
    assert Signed(ns, Marked(map[], ThreadVisits(shadows, s, root)), i);
    MarkedAt(ThreadVisits(shadows, s, root), T.Path(ns, i));
  }

  /** A node is childless iff nothing is called from any instruction on its path. */
  lemma FlatLeaves(shadows: seq<Shadow>, s: Store, root: nat, ns: seq<T.FmtNode>, i: nat)
    requires Inv(shadows, s) && root < |s.nodes| && s.nodes[root].parent == None && i < |ns|
    requires T.Linked(ns) && Signs(ns, Marked(map[], ThreadVisits(shadows, s, root)))
    ensures var visits := ThreadVisits(shadows, s, root);
            ns[i].children == [] <==> forall k :: 0 <= k < |visits| && visits[k].path == T.Path(ns, i) ==> visits[k].leaf
  {
    var visits := ThreadVisits(shadows, s, root);
    if ns[i].children != [] {
      var k := CallerVisit(shadows, s, root, ns, i);
    }
    if k :| 0 <= k < |visits| && visits[k].path == T.Path(ns, i) && !visits[k].leaf {
      CalleePath(shadows, s, root, ns, i, k);
    }
  }

  lemma CallerVisit(shadows: seq<Shadow>, s: Store, root: nat, ns: seq<T.FmtNode>, i: nat) returns (k: nat)
    requires Inv(shadows, s) && root < |s.nodes| && s.nodes[root].parent == None && i < |ns|
    requires T.Linked(ns) && Signs(ns, Marked(map[], ThreadVisits(shadows, s, root))) && ns[i].children != []
    ensures var visits := ThreadVisits(shadows, s, root);
            k < |visits| && visits[k].path == T.Path(ns, i) && !visits[k].leaf
  {
    var c := ns[i].children[0];
    assert T.ChildrenOk(ns, i);
    T.ChildOfPath(ns, i, c, ns[c].addr);
    var p := T.Path(ns, i) + [ns[c].addr];
    assert T.HasPath(ns, p);
    FlatPaths(shadows, s, root, ns, p);
    var h :| SpelledBy(shadows, s, root, p, h);
    k := VisitOfCaller(shadows, s, root, h);
    assert T.Path(ns, i) == p[..|p| - 1];
  }

  lemma VisitOfCaller(shadows: seq<Shadow>, s: Store, root: nat, h: nat) returns (k: nat)
    requires Inv(shadows, s) && root < |s.nodes| && s.nodes[root].parent == None
    requires InThread(s, root, h) && PcPath(shadows, s, h) != []
    ensures var visits, p := ThreadVisits(shadows, s, root), PcPath(shadows, s, h);
            k < |visits| && visits[k].path == p[..|p| - 1] && !visits[k].leaf
  {
    var n := s.owners[h].value;
    assert Keyed(shadows, s.nodes[n]) && Registered(s, n);
    PcPathStep(shadows, s, n, h - s.nodes[n].start);
    var caller := s.nodes[n].parent.value;
    var end := EndOf(s, caller);
    OwnerOfHandle(s, caller, end);
    k := ThreadHandle(shadows, s, root, end);
  }

  /** Whatever is called from a handle has a path one longer. */
  lemma CalleeHandle(shadows: seq<Shadow>, s: Store, root: nat, v: Visit) returns (h: nat, addr: int)
    requires Inv(shadows, s) && VisitOk(shadows, s, root, v) && InThread(s, root, v.handle) && !v.leaf
    ensures SpelledBy(shadows, s, root, v.path + [addr], h)
  {
    var caller := s.owners[v.handle].value;
    PayloadOf(shadows, s, caller, s.nodes[caller].callees);
    var n := s.nodes[caller].callees.value.value;
    assert Keyed(shadows, s.nodes[n]);
    PcPathStep(shadows, s, n, 0);
    h, addr := s.nodes[n].start, shadows[s.nodes[n].key].ips[0];
    OwnerOfHandle(s, n, h);
  }

  lemma CalleePath(shadows: seq<Shadow>, s: Store, root: nat, ns: seq<T.FmtNode>, i: nat, k: nat)
    requires Inv(shadows, s) && root < |s.nodes| && s.nodes[root].parent == None && i < |ns|
    requires T.Linked(ns) && Signs(ns, Marked(map[], ThreadVisits(shadows, s, root)))
    requires var visits := ThreadVisits(shadows, s, root);
             k < |visits| && visits[k].path == T.Path(ns, i) && !visits[k].leaf
    ensures ns[i].children != []
  {
    var v := ThreadVisits(shadows, s, root)[k];
    ThreadVisit(shadows, s, root, k);
    var h, addr := CalleeHandle(shadows, s, root, v);
    FlatPaths(shadows, s, root, ns, v.path + [addr]);
    var j :| 0 <= j < |ns| && T.Path(ns, j) == v.path + [addr];
    T.ChildOfPath(ns, i, j, addr);
  }

  /** So every childless node is negative; the converse fails exactly where an instruction that
      calls nothing was seen before one with the same path that does. */
  lemma NegativeAndInner(shadows: seq<Shadow>, s: Store, root: nat, ns: seq<T.FmtNode>, i: nat)
    requires Inv(shadows, s) && root < |s.nodes| && s.nodes[root].parent == None && i < |ns|
    requires T.Linked(ns) && Signs(ns, Marked(map[], ThreadVisits(shadows, s, root)))
    ensures ns[i].children == [] ==> ns[i].id < 0
    ensures var visits := ThreadVisits(shadows, s, root);
            ns[i].id < 0 && ns[i].children != []
            <==> exists j, k :: IsFirst(visits, j) && j < k < |visits| && visits[j].path == visits[k].path == T.Path(ns, i)
                                && visits[j].leaf && !visits[k].leaf
  {
    FlatSigns(shadows, s, root, ns, i);
    FlatLeaves(shadows, s, root, ns, i);
    var visits := ThreadVisits(shadows, s, root);
    var j :| IsFirst(visits, j) && visits[j].path == T.Path(ns, i) && (ns[i].id < 0 <==> visits[j].leaf);
    if ns[i].id < 0 && ns[i].children != [] {
      var k :| 0 <= k < |visits| && visits[k].path == T.Path(ns, i) && !visits[k].leaf;
      assert j < k;
    }
  }
}
