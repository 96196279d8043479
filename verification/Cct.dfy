/** The calling context tree of all threads: a shared store of block nodes, numbered in the
    order in which they took their handles, and one cursor per thread. */
module Cct {
  import opened Options
  import opened SplayTree

  const STATE_CALL_DIRECT: bv8 := 0x02
  const STATE_CALL_INDIRECT: bv8 := 0x04
  const STATE_RETURN: bv8 := 0x08
  const STATE_ROOT_VIRTUAL: bv8 := 0x20

  const CONTEXT_HANDLE_MAX: nat := 16777216
  const ROOT_CALLER_HANDLE: nat := 1
  const FIRST_HANDLE: nat := 2
  const ROOT_KEY: nat := 0

  predicate StateContains(flags: bv8, state: bv8) {
    flags & state > 0
  }

  predicate IsVirtual(flags: bv8) {
    StateContains(flags, STATE_ROOT_VIRTUAL)
  }

  predicate IsCall(flags: bv8) {
    StateContains(flags, STATE_CALL_DIRECT) || StateContains(flags, STATE_CALL_INDIRECT)
  }

  predicate IsReturn(flags: bv8) {
    StateContains(flags, STATE_RETURN)
  }

  /** What block analysis records once per block key. */
  datatype Shadow = Shadow(slots: nat, endState: bv8, memRefs: nat, ips: seq<int>)

  /** Key 0 is the shared virtual root; instrumented blocks have at least one slot. */
  predicate ValidShadows(shadows: seq<Shadow>) {
    && |shadows| > 0
    && shadows[ROOT_KEY] == Shadow(1, STATE_ROOT_VIRTUAL, 0, [0])
    && forall k :: 0 <= k < |shadows| ==> shadows[k].slots >= 1 && |shadows[k].ips| == shadows[k].slots
  }

  datatype BbNode = BbNode(key: nat, parent: Option<nat>, start: nat, slots: nat, callees: Tree<Option<nat>>)

  /** `owners` gives the block node of every handle below `idle` (NULL
      for the invalid handle 0 and the shared root caller 1); `idle` is the next free handle;
      `exited` is set when the handle space is exhausted and the process exits. */
  datatype Store = Store(nodes: seq<BbNode>, idle: nat, owners: seq<Option<nat>>, exited: bool)

  datatype Cursor = Cursor(root: nat, cur: nat, preState: bv8)

  const EMPTY := Store([], FIRST_HANDLE, [None, None], false)

  function EndHandle(n: BbNode): int {
    n.start + n.slots - 1
  }

  function CreateNode(s: Store, key: nat, parent: Option<nat>, slots: nat): Store {
    if s.idle + slots >= CONTEXT_HANDLE_MAX then
      s.(exited := true)
    else
      Store(s.nodes + [BbNode(key, parent, s.idle, slots, Leaf)], s.idle + slots,
            s.owners + seq(slots, _ => Some(|s.nodes|)), s.exited)
  }

  // ---- well-formed stores ----

  ghost predicate Parents(s: Store) {
    forall i :: 0 <= i < |s.nodes| && s.nodes[i].parent.Some? ==> s.nodes[i].parent.value < i
  }

  ghost predicate Adjacent(s: Store, i: nat)
    requires i < |s.nodes|
  {
    s.nodes[i].start + s.nodes[i].slots == if i + 1 < |s.nodes| then s.nodes[i + 1].start else s.idle
  }

  /** Node intervals follow each other from the first handle to the idle one. */
  ghost predicate Layout(s: Store) {
    && (forall i :: 0 <= i < |s.nodes| ==> s.nodes[i].slots >= 1)
    && (forall i :: 0 <= i < |s.nodes| ==> Adjacent(s, i))
    && (if s.nodes == [] then s.idle else s.nodes[0].start) == FIRST_HANDLE
  }

  /** Every filled handle leads back to the node whose interval it lies in. */
  ghost predicate Owned(s: Store) {
    && |s.owners| == s.idle
    && (forall h :: 0 <= h < |s.owners| ==> (s.owners[h].Some? <==> FIRST_HANDLE <= h))
    && forall h :: FIRST_HANDLE <= h < |s.owners| ==> Owns(s, s.owners[h].value, h)
  }

  ghost predicate Owns(s: Store, i: nat, h: nat) {
    i < |s.nodes| && s.nodes[i].start <= h <= EndHandle(s.nodes[i])
  }

  /** A callee tree maps a key to the child with that key and this parent. */
  ghost predicate CalleesOf(s: Store, i: nat)
    requires i < |s.nodes|
  {
    && IsSearchTree(s.nodes[i].callees)
    && forall e <- Inorder(s.nodes[i].callees) ::
         && e.value.Some? && e.value.value < |s.nodes|
         && s.nodes[e.value.value].key == e.key && s.nodes[e.value.value].parent == Some(i)
  }

  ghost predicate Registered(s: Store, j: nat)
    requires j < |s.nodes|
  {
    s.nodes[j].parent.Some? ==>
      && s.nodes[j].parent.value < |s.nodes|
      && Entry(s.nodes[j].key, Some(j)) in Inorder(s.nodes[s.nodes[j].parent.value].callees)
  }

  ghost predicate Keyed(shadows: seq<Shadow>, n: BbNode) {
    n.key < |shadows| && n.slots == shadows[n.key].slots && (n.parent.None? <==> n.key == ROOT_KEY)
  }

  ghost predicate Inv(shadows: seq<Shadow>, s: Store) {
    && ValidShadows(shadows)
    && Parents(s) && Layout(s) && Owned(s)
    && (forall i :: 0 <= i < |s.nodes| ==> CalleesOf(s, i))
    && (forall i :: 0 <= i < |s.nodes| ==> Registered(s, i))
    && (forall i :: 0 <= i < |s.nodes| ==> Keyed(shadows, s.nodes[i]))
  }

  ghost function RootOf(s: Store, i: nat): nat
    requires Parents(s) && i < |s.nodes|
    decreases i
  {
    match s.nodes[i].parent
    case None => i
    case Some(p) => RootOf(s, p)
  }

  /** The keys of the blocks from below the thread root down to the node. */
  ghost function Path(s: Store, i: nat): seq<nat>
    requires Parents(s) && i < |s.nodes|
    decreases i
  {
    match s.nodes[i].parent
    case None => []
    case Some(p) => Path(s, p) + [s.nodes[i].key]
  }

  ghost predicate CursorInv(s: Store, c: Cursor)
    requires Parents(s)
  {
    && c.root < |s.nodes| && c.cur < |s.nodes| && s.nodes[c.root].parent == None
    && RootOf(s, c.cur) == c.root
    && (c.cur == c.root ==> IsVirtual(c.preState))
  }

  // ---- the steps ----

  lemma NotRoot(s: Store, c: Cursor)
    requires Parents(s) && CursorInv(s, c) && c.cur != c.root
    ensures s.nodes[c.cur].parent.Some?
    ensures RootOf(s, s.nodes[c.cur].parent.value) == c.root
    ensures s.nodes[c.cur].parent != Some(c.root) ==> s.nodes[s.nodes[c.cur].parent.value].parent.Some?
  {
  }

  /** The node under which the next block is looked up. Every parent link that is followed
      is there, which is what makes the function well defined. */
  function Caller(s: Store, c: Cursor): (caller: nat)
    requires Parents(s) && CursorInv(s, c)
    ensures caller < |s.nodes| && RootOf(s, caller) == c.root
  {
    if IsVirtual(c.preState) then c.root
    else if IsCall(c.preState) then c.cur
    else
      NotRoot(s, c);
      var parent := s.nodes[c.cur].parent.value;
      if IsReturn(c.preState) && parent != c.root then s.nodes[parent].parent.value else parent
  }

  function WithCallees(s: Store, i: nat, callees: Tree<Option<nat>>): Store
    requires i < |s.nodes|
  {
    s.(nodes := s.nodes[i := s.nodes[i].(callees := callees)])
  }

  /** The lookup of `key` in the caller's callee tree and the creation of a node when the key
      is new there. Yields the node reached. */
  ghost function EnterBlock(shadows: seq<Shadow>, s: Store, caller: nat, key: nat): (Store, nat)
    requires Inv(shadows, s) && !s.exited && caller < |s.nodes| && key < |shadows|
  {
    EnterCase(shadows, s, caller, key);
    var isNew := Splay(s.nodes[caller].callees, key, None).value == None;
    var s1 := if isNew then CreateNode(s, key, Some(caller), shadows[key].slots) else s;
    if s1.exited then (s1, caller) else
    var callees := Enter(s.nodes[caller].callees, key, |s.nodes|);
    (WithCallees(s1, caller, callees), callees.value.value)
  }

  /** One executed block: the caller is chosen by how the previous block ended. */
  ghost function Step(shadows: seq<Shadow>, s: Store, c: Cursor, key: nat): (Store, Cursor)
    requires Inv(shadows, s) && CursorInv(s, c) && 0 < key < |shadows|
  {
    if s.exited then (s, c) else
    var (s', id) := EnterBlock(shadows, s, Caller(s, c), key);
    if s'.exited then (s', c) else (s', Cursor(c.root, id, shadows[key].endState))
  }

  /** The two outcomes of the lookup, told apart by the keys present before it. */
  lemma EnterCase(shadows: seq<Shadow>, s: Store, caller: nat, key: nat)
    requires Inv(shadows, s) && caller < |s.nodes|
    ensures var t := s.nodes[caller].callees;
            var t' := Enter(t, key, |s.nodes|);
            && t'.Node? && t'.key == key && t'.value.Some? && IsSearchTree(t')
            && Splay(t, key, None).Node?
            && (Splay(t, key, None).value == None <==> forall e <- Inorder(t) :: e.key != key)
            && (Splay(t, key, None).value == None ==> t'.value == Some(|s.nodes|))
            && (Splay(t, key, None).value != None ==> Entry(key, t'.value) in Inorder(t))
            && (forall e <- Inorder(t) :: e in Inorder(t'))
            && (forall e <- Inorder(t') :: e in Inorder(t) || e == Entry(key, t'.value))
            && Entry(key, t'.value) in Inorder(t')
  {
    assert CalleesOf(s, caller);
    EnterIsMap(s.nodes[caller].callees, key, |s.nodes|);
  }

  // ---- thread start ----

  function StartThread(s: Store): (Store, Cursor) {
    (CreateNode(s, ROOT_KEY, None, 1), Cursor(|s.nodes|, |s.nodes|, STATE_ROOT_VIRTUAL))
  }

  // ---- every step keeps the store well formed and never disturbs what is there ----

  /** Nodes are never removed, and their key, parent and handles never change. */
  ghost predicate Extends(s: Store, s': Store) {
    && |s.nodes| <= |s'.nodes| && s.owners <= s'.owners
    && forall i :: 0 <= i < |s.nodes| ==> SameNode(s.nodes[i], s'.nodes[i])
  }

  predicate SameNode(n: BbNode, n': BbNode) {
    n.(callees := Leaf) == n'.(callees := Leaf)
  }

  lemma {:induction false} ExtendsPath(s: Store, s': Store, i: nat)
    requires Parents(s) && Parents(s') && Extends(s, s') && i < |s.nodes|
    ensures Path(s', i) == Path(s, i) && RootOf(s', i) == RootOf(s, i)
    decreases i
  {
    assert SameNode(s.nodes[i], s'.nodes[i]);
    if s.nodes[i].parent.Some? {
      ExtendsPath(s, s', s.nodes[i].parent.value);
    }
  }

  lemma ExtendsCursor(s: Store, s': Store, c: Cursor)
    requires Parents(s) && Parents(s') && Extends(s, s') && CursorInv(s, c)
    ensures CursorInv(s', c) && Path(s', c.cur) == Path(s, c.cur)
  {
    ExtendsPath(s, s', c.cur);
    assert SameNode(s.nodes[c.root], s'.nodes[c.root]);
  }

  lemma CreateKeeps(s: Store, key: nat, parent: Option<nat>, slots: nat)
    requires Parents(s) && Layout(s) && Owned(s) && slots >= 1
    requires parent.Some? ==> parent.value < |s.nodes|
    ensures var s' := CreateNode(s, key, parent, slots);
            Parents(s') && Layout(s') && Owned(s') && Extends(s, s')
  {
    var s' := CreateNode(s, key, parent, slots);
    forall i | 0 <= i < |s'.nodes| ensures Adjacent(s', i) {
      assert i < |s.nodes| ==> Adjacent(s, i);
    }
    if !(s.idle + slots >= CONTEXT_HANDLE_MAX) {
      LayoutBounds(s);
      forall h | FIRST_HANDLE <= h < |s'.owners| ensures s'.owners[h].Some? && Owns(s', s'.owners[h].value, h) {
        if h < s.idle {
          assert Owns(s, s.owners[h].value, h);
        }
      }
    }
  }

  /** Intervals of different nodes are disjoint, in creation order. */
  lemma {:induction false} IntervalsOrdered(s: Store, i: nat, j: nat)
    requires Layout(s) && i < j < |s.nodes|
    ensures s.nodes[i].start + s.nodes[i].slots <= s.nodes[j].start
    decreases j
  {
    assert Adjacent(s, j - 1);
    if i < j - 1 {
      IntervalsOrdered(s, i, j - 1);
    }
  }

  lemma LayoutBounds(s: Store)
    requires Layout(s)
    ensures FIRST_HANDLE <= s.idle
    ensures forall i :: 0 <= i < |s.nodes| ==> FIRST_HANDLE <= s.nodes[i].start && s.nodes[i].start + s.nodes[i].slots <= s.idle
  {
    forall i | 0 <= i < |s.nodes|
      ensures FIRST_HANDLE <= s.nodes[i].start && s.nodes[i].start + s.nodes[i].slots <= s.idle
    {
      var last := |s.nodes| - 1;
      assert Adjacent(s, last);
      if 0 < i { IntervalsOrdered(s, 0, i); }
      if i < last { IntervalsOrdered(s, i, last); }
    }
    if s.nodes != [] {
      assert s.nodes[0].slots >= 1;
    }
  }

  /** The bookkeeping part of `Inv`: everything but the callee trees. */
  ghost predicate Frame(shadows: seq<Shadow>, s: Store) {
    && ValidShadows(shadows)
    && Parents(s) && Layout(s) && Owned(s)
    && forall i :: 0 <= i < |s.nodes| ==> Keyed(shadows, s.nodes[i])
  }

  lemma WithCalleesFrame(shadows: seq<Shadow>, s: Store, i: nat, callees: Tree<Option<nat>>)
    requires Frame(shadows, s) && i < |s.nodes|
    ensures Frame(shadows, WithCallees(s, i, callees)) && Extends(s, WithCallees(s, i, callees))
  {
    var s' := WithCallees(s, i, callees);
    forall j | 0 <= j < |s'.nodes| ensures Adjacent(s', j) && Keyed(shadows, s'.nodes[j]) {
      assert Adjacent(s, j) && Keyed(shadows, s.nodes[j]);
    }
    forall h | FIRST_HANDLE <= h < |s'.owners| ensures Owns(s', s'.owners[h].value, h) {
      assert Owns(s, s.owners[h].value, h);
    }
  }

  lemma CreateFrame(shadows: seq<Shadow>, s: Store, key: nat, parent: Option<nat>)
    requires Frame(shadows, s) && key < |shadows| && (parent.None? <==> key == ROOT_KEY)
    requires parent.Some? ==> parent.value < |s.nodes|
    ensures var s' := CreateNode(s, key, parent, shadows[key].slots); Frame(shadows, s') && Extends(s, s')
  {
    CreateKeeps(s, key, parent, shadows[key].slots);
  }

  /** Registering child `id` in its parent's callee tree restores the callee part of `Inv`. */
  lemma RegisterChild(s: Store, s1: Store, s': Store, caller: nat, key: nat, id: nat, callees: Tree<Option<nat>>)
    requires Extends(s, s1) && caller < |s.nodes| && s' == WithCallees(s1, caller, callees)
    requires forall i :: 0 <= i < |s.nodes| ==> CalleesOf(s, i) && Registered(s, i) && s1.nodes[i].callees == s.nodes[i].callees
    requires |s1.nodes| == |s.nodes| || (|s1.nodes| == |s.nodes| + 1 && id == |s.nodes| && s1.nodes[id].callees == Leaf)
    requires id < |s1.nodes| && s1.nodes[id].key == key && s1.nodes[id].parent == Some(caller)
    requires IsSearchTree(callees) && Entry(key, Some(id)) in Inorder(callees)
    requires forall e <- Inorder(s.nodes[caller].callees) :: e in Inorder(callees)
    requires forall e <- Inorder(callees) :: e in Inorder(s.nodes[caller].callees) || e == Entry(key, Some(id))
    ensures forall i :: 0 <= i < |s'.nodes| ==> CalleesOf(s', i) && Registered(s', i)
  {
    assert forall i :: 0 <= i < |s1.nodes| ==> SameNode(s1.nodes[i], s'.nodes[i]);
    forall i | 0 <= i < |s'.nodes| ensures CalleesOf(s', i) && Registered(s', i) {
      if i < |s.nodes| {
        assert CalleesOf(s, i) && Registered(s, i) && SameNode(s.nodes[i], s1.nodes[i]);
        forall e <- Inorder(s'.nodes[i].callees)
          ensures e.value.Some? && e.value.value < |s'.nodes|
          ensures s'.nodes[e.value.value].key == e.key && s'.nodes[e.value.value].parent == Some(i)
        {
          if e in Inorder(s.nodes[i].callees) {
            assert SameNode(s.nodes[e.value.value], s1.nodes[e.value.value]);
          }
        }
      }
    }
  }

  lemma RegisterKeeps(shadows: seq<Shadow>, s: Store, s1: Store, caller: nat, key: nat, id: nat, callees: Tree<Option<nat>>)
    requires Inv(shadows, s) && Frame(shadows, s1) && Extends(s, s1) && caller < |s.nodes|
    requires forall i :: 0 <= i < |s.nodes| ==> s1.nodes[i].callees == s.nodes[i].callees
    requires |s1.nodes| == |s.nodes| || (|s1.nodes| == |s.nodes| + 1 && id == |s.nodes| && s1.nodes[id].callees == Leaf)
    requires id < |s1.nodes| && s1.nodes[id].key == key && s1.nodes[id].parent == Some(caller)
    requires IsSearchTree(callees) && Entry(key, Some(id)) in Inorder(callees)
    requires forall e <- Inorder(s.nodes[caller].callees) :: e in Inorder(callees)
    requires forall e <- Inorder(callees) :: e in Inorder(s.nodes[caller].callees) || e == Entry(key, Some(id))
    ensures var s' := WithCallees(s1, caller, callees);
            && Inv(shadows, s') && Extends(s, s')
            && s'.nodes[id].key == key && s'.nodes[id].parent == Some(caller)
  {
    WithCalleesFrame(shadows, s1, caller, callees);
    RegisterChild(s, s1, WithCallees(s1, caller, callees), caller, key, id, callees);
    ExtendsTrans(s, s1, WithCallees(s1, caller, callees));
    assert SameNode(s1.nodes[id], WithCallees(s1, caller, callees).nodes[id]);
  }

  lemma ExtendsTrans(s: Store, s1: Store, s2: Store)
    requires Extends(s, s1) && Extends(s1, s2)
    ensures Extends(s, s2)
  {
    forall i | 0 <= i < |s.nodes| ensures SameNode(s.nodes[i], s2.nodes[i]) {
      assert SameNode(s.nodes[i], s1.nodes[i]) && SameNode(s1.nodes[i], s2.nodes[i]);
    }
  }

  lemma EnterBlockKeeps(shadows: seq<Shadow>, s: Store, caller: nat, key: nat)
    requires Inv(shadows, s) && !s.exited && caller < |s.nodes| && 0 < key < |shadows|
    ensures var (s', id) := EnterBlock(shadows, s, caller, key);
            && Inv(shadows, s') && Extends(s, s') && id < |s'.nodes|
            && (!s'.exited ==> s'.nodes[id].key == key && s'.nodes[id].parent == Some(caller))
  {
    EnterCase(shadows, s, caller, key);
    CreateFrame(shadows, s, key, Some(caller));
    var t := s.nodes[caller].callees;
    var isNew := Splay(t, key, None).value == None;
    var s1 := if isNew then CreateNode(s, key, Some(caller), shadows[key].slots) else s;
    var callees := Enter(t, key, |s.nodes|);
    if s1.exited {
      ExitedKeeps(shadows, s);
    } else {
      assert !isNew ==> CalleesOf(s, caller) && callees.value.value < |s.nodes|;
      RegisterKeeps(shadows, s, s1, caller, key, callees.value.value, callees);
    }
  }

  lemma ExitedKeeps(shadows: seq<Shadow>, s: Store)
    requires Inv(shadows, s)
    ensures Inv(shadows, s.(exited := true)) && Extends(s, s.(exited := true))
  {
    var s' := s.(exited := true);
    forall i | 0 <= i < |s'.nodes| ensures CalleesOf(s', i) && Registered(s', i) && Adjacent(s', i) {
      assert CalleesOf(s, i) && Registered(s, i) && Adjacent(s, i);
    }
    forall h | FIRST_HANDLE <= h < |s'.owners| ensures Owns(s', s'.owners[h].value, h) {
      assert Owns(s, s.owners[h].value, h);
    }
  }

  /** A step of any thread keeps the store well formed, never disturbs an existing node, and
      leaves its own cursor on a node of its own tree. */
  lemma StepKeeps(shadows: seq<Shadow>, s: Store, c: Cursor, key: nat)
    requires Inv(shadows, s) && CursorInv(s, c) && 0 < key < |shadows|
    ensures var (s', c') := Step(shadows, s, c, key);
            Inv(shadows, s') && CursorInv(s', c') && Extends(s, s')
  {
    if !s.exited {
      var caller := Caller(s, c);
      var (s', id) := EnterBlock(shadows, s, caller, key);
      EnterBlockKeeps(shadows, s, caller, key);
      ExtendsPath(s, s', caller);
      ExtendsCursor(s, s', c);
    }
  }

  // ---- refinement of a call stack of block keys ----

  /** The pure machine on the keys below the thread root: push after a call, pop one frame
      after a return (never below depth one), otherwise replace the top. */
  function NextPath(path: seq<nat>, preState: bv8, key: nat): seq<nat> {
    if IsVirtual(preState) then [key]
    else if IsCall(preState) then path + [key]
    else if IsReturn(preState) && |path| >= 2 then path[..|path| - 2] + [key]
    else if |path| >= 1 then path[..|path| - 1] + [key]
    else [key]
  }

  lemma StepRefinesStack(shadows: seq<Shadow>, s: Store, c: Cursor, key: nat)
    requires Inv(shadows, s) && CursorInv(s, c) && 0 < key < |shadows|
    requires !Step(shadows, s, c, key).0.exited
    ensures var (s', c') := Step(shadows, s, c, key);
            && Inv(shadows, s') && CursorInv(s', c')
            && Path(s', c'.cur) == NextPath(Path(s, c.cur), c.preState, key)
            && c'.root == c.root && c'.preState == shadows[key].endState && c'.cur != c'.root
  {
    StepKeeps(shadows, s, c, key);
    var caller := Caller(s, c);
    var (s', id) := EnterBlock(shadows, s, caller, key);
    EnterBlockKeeps(shadows, s, caller, key);
    ExtendsPath(s, s', caller);
    assert Path(s', id) == Path(s, caller) + [key];
    if !IsVirtual(c.preState) && !IsCall(c.preState) {
      NotRoot(s, c);
      RootPath(s, s.nodes[c.cur].parent.value, c.root);
    }
  }

  /** The stack machine in terms of the bits of the previous end state: bit 0x20 marks the virtual
      root, bits 0x02 and 0x04 the two kinds of call, bit 0x08 a return. Any other bit is ignored. */
  lemma NextPathBits(path: seq<nat>, preState: bv8, key: nat)
    ensures preState & 0x20 != 0 ==> NextPath(path, preState, key) == [key]
    ensures preState & 0x20 == 0 && preState & 0x06 != 0 ==> NextPath(path, preState, key) == path + [key]
    ensures preState & 0x26 == 0 && preState & 0x08 != 0 && |path| >= 2 ==>
              NextPath(path, preState, key) == path[..|path| - 2] + [key]
    ensures preState & 0x26 == 0 && (preState & 0x08 == 0 || |path| == 1) && |path| >= 1 ==>
              NextPath(path, preState, key) == path[..|path| - 1] + [key]
  {
    StateBits(preState);
  }

  lemma StateBits(flags: bv8)
    ensures IsVirtual(flags) <==> flags & 0x20 != 0
    ensures IsCall(flags) <==> flags & 0x06 != 0
    ensures IsReturn(flags) <==> flags & 0x08 != 0
    ensures flags & 0x26 == 0 <==> flags & 0x20 == 0 && flags & 0x06 == 0
  {
  }

  /** The call stack law of a step, on the bits of the end state of the block before it. */
  lemma StepMovesStack(shadows: seq<Shadow>, s: Store, c: Cursor, key: nat)
    requires Inv(shadows, s) && CursorInv(s, c) && 0 < key < |shadows|
    requires !Step(shadows, s, c, key).0.exited
    ensures var (s', c') := Step(shadows, s, c, key);
            var path, bits := Path(s, c.cur), c.preState;
            && Parents(s') && c'.cur < |s'.nodes| && (bits & 0x20 == 0 ==> |path| >= 1)
            && Path(s', c'.cur) ==
               if bits & 0x20 != 0 then [key]
               else if bits & 0x06 != 0 then path + [key]
               else if bits & 0x08 != 0 && |path| >= 2 then path[..|path| - 2] + [key]
               else path[..|path| - 1] + [key]
  {
    StepRefinesStack(shadows, s, c, key);
    StateBits(c.preState);
    NextPathBits(Path(s, c.cur), c.preState, key);
    RootPath(s, c.cur, c.root);
  }

  /** A step exits exactly when it needs a node and its handles would reach the maximum. */
  lemma StepExits(shadows: seq<Shadow>, s: Store, c: Cursor, key: nat)
    requires Inv(shadows, s) && CursorInv(s, c) && 0 < key < |shadows| && !s.exited
    ensures Step(shadows, s, c, key).0.exited
            <==> (forall e <- Inorder(s.nodes[Caller(s, c)].callees) :: e.key != key)
                 && s.idle + shadows[key].slots >= 16777216
  {
    EnterCase(shadows, s, Caller(s, c), key);
  }

  /** Only a thread root has the empty path. */
  lemma RootPath(s: Store, i: nat, root: nat)
    requires Parents(s) && i < |s.nodes| && root < |s.nodes| && RootOf(s, i) == root && s.nodes[root].parent == None
    ensures Path(s, i) == [] <==> i == root
  {
  }

  lemma StartKeepsInv(shadows: seq<Shadow>, s: Store)
    requires Inv(shadows, s)
    ensures var (s', c) := StartThread(s);
            Inv(shadows, s') && Extends(s, s') && (!s'.exited ==> CursorInv(s', c) && Path(s', c.cur) == [])
  {
    CreateKeeps(s, ROOT_KEY, None, 1);
    var (s', c) := StartThread(s);
    forall i | 0 <= i < |s'.nodes| ensures CalleesOf(s', i) && Registered(s', i) && Keyed(shadows, s'.nodes[i]) {
      if i < |s.nodes| {
        assert CalleesOf(s, i) && Registered(s, i) && Keyed(shadows, s.nodes[i]);
      }
    }
  }
}
