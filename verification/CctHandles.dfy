/** Context handles: what they identify, and the walks from a handle to its callers. */
module CctHandles {
  import opened Options
  import opened SplayTree
  import opened Cct

  // ---- canonicity of nodes and handles ----

  /** Two nodes are the same iff they are in the same thread's tree and on the same key path. */
  lemma {:induction false} PathsIdentifyNodes(shadows: seq<Shadow>, s: Store, i: nat, j: nat)
    requires Inv(shadows, s) && i < |s.nodes| && j < |s.nodes|
    ensures i == j <==> RootOf(s, i) == RootOf(s, j) && Path(s, i) == Path(s, j)
    decreases i
  {
    if RootOf(s, i) == RootOf(s, j) && Path(s, i) == Path(s, j) && s.nodes[i].parent.Some? {
      assert s.nodes[j].parent.Some?;
      var p, q := s.nodes[i].parent.value, s.nodes[j].parent.value;
      assert Path(s, p) == Path(s, i)[..|Path(s, i)| - 1];
      assert Path(s, q) == Path(s, j)[..|Path(s, j)| - 1];
      PathsIdentifyNodes(shadows, s, p, q);
      assert s.nodes[i].key == Path(s, i)[|Path(s, i)| - 1] == s.nodes[j].key;
      assert Registered(s, i) && Registered(s, j) && CalleesOf(s, p);
      SortedUnique(Inorder(s.nodes[p].callees), Entry(s.nodes[i].key, Some(i)), Entry(s.nodes[j].key, Some(j)));
    }
  }

  /** A handle in a node's interval is mapped back to that node and no other. */
  lemma OwnerOfHandle(s: Store, i: nat, h: nat)
    requires Layout(s) && Owned(s) && i < |s.nodes| && s.nodes[i].start <= h <= EndHandle(s.nodes[i])
    ensures FIRST_HANDLE <= h < s.idle && s.owners[h] == Some(i)
  {
    LayoutBounds(s);
    assert Owns(s, s.owners[h].value, h);
    var j := s.owners[h].value;
    if i < j { IntervalsOrdered(s, i, j); }
    if j < i { IntervalsOrdered(s, j, i); }
  }

  /** `drcctlib_get_context_handle`: None when the slot is beyond the block. */
  function ContextHandle(s: Store, node: nat, slot: nat): Option<nat>
    requires node < |s.nodes|
  {
    if slot >= s.nodes[node].slots then None else Some(s.nodes[node].start + slot)
  }

  /** Handles are canonical: equal iff the thread, the key path and the slot are equal. */
  lemma HandlesAreCanonical(shadows: seq<Shadow>, s: Store, i: nat, a: nat, j: nat, b: nat)
    requires Inv(shadows, s) && i < |s.nodes| && j < |s.nodes|
    requires a < s.nodes[i].slots && b < s.nodes[j].slots
    ensures ContextHandle(s, i, a) == ContextHandle(s, j, b)
            <==> RootOf(s, i) == RootOf(s, j) && Path(s, i) == Path(s, j) && a == b
  {
    PathsIdentifyNodes(shadows, s, i, j);
    if ContextHandle(s, i, a) == ContextHandle(s, j, b) {
      OwnerOfHandle(s, i, s.nodes[i].start + a);
      OwnerOfHandle(s, j, s.nodes[j].start + b);
    }
  }

  /** The node intervals partition the handle space: every handle from the first to the idle
      one is exactly one slot of exactly one node. This is between whole steps: while a node is
      being made, its handles are below the idle one and not yet filled in. */
  lemma HandlesPartition(shadows: seq<Shadow>, s: Store, h: nat)
    requires Inv(shadows, s)
    ensures FIRST_HANDLE <= h < s.idle <==> exists i, a :: 0 <= i < |s.nodes| && ContextHandle(s, i, a) == Some(h)
    ensures forall i, a, j, b | 0 <= i < |s.nodes| && 0 <= j < |s.nodes| ::
              (ContextHandle(s, i, a) == Some(h) && ContextHandle(s, j, b) == Some(h)) ==> (i == j && a == b)
  {
    if FIRST_HANDLE <= h < s.idle {
      assert Owns(s, s.owners[h].value, h);
      var i := s.owners[h].value;
      assert ContextHandle(s, i, h - s.nodes[i].start) == Some(h);
    }
    forall i, a | 0 <= i < |s.nodes| && ContextHandle(s, i, a) == Some(h)
      ensures FIRST_HANDLE <= h < s.idle && s.owners[h] == Some(i)
    {
      OwnerOfHandle(s, i, h);
    }
  }

  // ---- the walk to the callers ----

  predicate ValidHandle(s: Store, h: nat) {
    ROOT_CALLER_HANDLE <= h < s.idle
  }

  ghost function CallerOf(s: Store, h: nat): (caller: nat)
    requires Parents(s) && Layout(s) && Owned(s) && FIRST_HANDLE <= h < s.idle
    ensures ROOT_CALLER_HANDLE <= caller < h
  {
    assert Owns(s, s.owners[h].value, h);
    LayoutBounds(s);
    var node := s.nodes[s.owners[h].value];
    match node.parent
    case None => ROOT_CALLER_HANDLE
    case Some(p) =>
      IntervalsOrdered(s, p, s.owners[h].value);
      EndHandle(s.nodes[p])
  }

  /** The handles from `h` out to the shared root caller. Every caller is smaller than its
      callee, so the walk ends. */
  ghost function CallChain(s: Store, h: nat): (chain: seq<nat>)
    requires Parents(s) && Layout(s) && Owned(s) && ValidHandle(s, h)
    ensures |chain| >= 1 && chain[0] == h && chain[|chain| - 1] == ROOT_CALLER_HANDLE
    decreases h
  {
    if h == ROOT_CALLER_HANDLE then [h] else [h] + CallChain(s, CallerOf(s, h))
  }

  /** The chain spells the key path backwards, then the thread root and the root caller; every caller in
      it is the last instruction of its block. */
  lemma {:induction false} ChainSpellsPath(s: Store, h: nat)
    requires Parents(s) && Layout(s) && Owned(s) && FIRST_HANDLE <= h < s.idle
    requires Owns(s, s.owners[h].value, h)
    ensures var chain, path := CallChain(s, h), Path(s, s.owners[h].value);
            && |chain| == |path| + 2
            && forall k :: 0 <= k < |path| ==>
                 && FIRST_HANDLE <= chain[k] < s.idle && Owns(s, s.owners[chain[k]].value, chain[k])
                 && s.nodes[s.owners[chain[k]].value].key == path[|path| - 1 - k]
                 && (k > 0 ==> chain[k] == s.nodes[s.owners[chain[k]].value].start + s.nodes[s.owners[chain[k]].value].slots - 1)
    decreases h
  {
    var i := s.owners[h].value;
    if s.nodes[i].parent.Some? {
      var p := s.nodes[i].parent.value;
      var caller := CallerOf(s, h);
      OwnerOfHandle(s, p, caller);
      ChainSpellsPath(s, caller);
      var chain, rest := CallChain(s, h), CallChain(s, caller);
      assert forall k :: 0 < k < |chain| ==> chain[k] == rest[k - 1];
    } else {
      assert CallChain(s, ROOT_CALLER_HANDLE) == [ROOT_CALLER_HANDLE];
    }
  }

  /** `bb_node_caller_ctxt_hndl` */
  method BbNodeCallerHandle(s: Store, h: nat) returns (caller: nat)
    requires Parents(s) && Layout(s) && Owned(s) && FIRST_HANDLE <= h < s.idle
    ensures caller == CallerOf(s, h)
  {
    assert Owns(s, s.owners[h].value, h);
    LayoutBounds(s);
    var node := s.nodes[s.owners[h].value];
    if node.parent == None {
      return ROOT_CALLER_HANDLE;
    }
    IntervalsOrdered(s, node.parent.value, s.owners[h].value);
    return EndHandle(s.nodes[node.parent.value]);
  }

  lemma NextInChain(s: Store, full: seq<nat>, depth: nat, h: nat)
    requires Parents(s) && Layout(s) && Owned(s) && FIRST_HANDLE <= h < s.idle
    requires depth < |full| && full[depth..] == CallChain(s, h)
    ensures depth + 1 < |full| && full[depth + 1..] == CallChain(s, CallerOf(s, h))
    ensures full[..depth + 2] == full[..depth + 1] + [CallerOf(s, h)]
  {
    assert full[depth + 1..] == full[depth..][1..];
    assert full[depth + 1..][0] == full[depth + 1];
  }

  /** `drcctlib_get_cct`: the whole chain for a negative depth, else its first `maxDepth + 1`
      elements. An invalid handle exits the process. */
  method GetCct(s: Store, h: nat, maxDepth: int) returns (chain: Option<seq<nat>>)
    requires Parents(s) && Layout(s) && Owned(s)
    ensures chain.Some? <==> ValidHandle(s, h)
    ensures chain.Some? ==>
              var full := CallChain(s, h);
              chain.value == if 0 <= maxDepth && maxDepth + 1 <= |full| then full[..maxDepth + 1] else full
  {
    if !(ROOT_CALLER_HANDLE <= h && h < s.idle) {
      return None;
    }
    ghost var full := CallChain(s, h);
    var list, next, depth := [h], h, 0;
    while true
      invariant ValidHandle(s, next)
      invariant depth + 1 == |list| <= |full| && list == full[..depth + 1] && full[depth..] == CallChain(s, next)
      invariant maxDepth < 0 || depth <= maxDepth
      decreases next
    {
      if next == ROOT_CALLER_HANDLE {
        break;
      }
      if 0 <= maxDepth && depth >= maxDepth {
        break;
      }
      NextInChain(s, full, depth, next);
      next := BbNodeCallerHandle(s, next);
      list := list + [next];
      depth := depth + 1;
    }
    return Some(list);
  }

  // ---- equality of call paths by program counter ----

  /** `drcctlib_get_ctxt_hndl_pc`; the virtual blocks have program counter 0. */
  ghost function HandlePc(shadows: seq<Shadow>, s: Store, h: nat): int
    requires Inv(shadows, s) && ValidHandle(s, h)
  {
    if h == ROOT_CALLER_HANDLE then 0 else
    assert Owns(s, s.owners[h].value, h);
    var node := s.nodes[s.owners[h].value];
    assert Keyed(shadows, node);
    if node.key == ROOT_KEY then 0 else shadows[node.key].ips[h - node.start]
  }

  ghost predicate IsRootHandle(s: Store, h: nat)
    requires Owned(s) && FIRST_HANDLE <= h < s.idle
  {
    assert Owns(s, s.owners[h].value, h);
    s.nodes[s.owners[h].value].key == ROOT_KEY
  }

  /** The full calling instruction-pointer vector, innermost first. */
  ghost function CallingIps(shadows: seq<Shadow>, s: Store, h: nat): seq<int>
    requires Inv(shadows, s) && FIRST_HANDLE <= h < s.idle
    decreases h
  {
    if IsRootHandle(s, h) then [] else
    RootIffCaller(shadows, s, h);
    [HandlePc(shadows, s, h)] + CallingIps(shadows, s, CallerOf(s, h))
  }

  /** The handle of a slot is that slot's instruction: it leads back to the node, and its program
      counter is the one recorded for the slot. */
  lemma HandleIsInstruction(shadows: seq<Shadow>, s: Store, node: nat, slot: nat)
    requires Inv(shadows, s) && node < |s.nodes|
    ensures ContextHandle(s, node, slot).Some? <==> slot < s.nodes[node].slots
    ensures slot < s.nodes[node].slots ==>
              var h := ContextHandle(s, node, slot).value;
              && FIRST_HANDLE <= h < s.idle && s.owners[h] == Some(node)
              && s.nodes[node].key < |shadows| && slot < |shadows[s.nodes[node].key].ips|
              && HandlePc(shadows, s, h) == shadows[s.nodes[node].key].ips[slot]
  {
    assert Keyed(shadows, s.nodes[node]);
    if slot < s.nodes[node].slots {
      OwnerOfHandle(s, node, s.nodes[node].start + slot);
    }
  }

  lemma RootIffCaller(shadows: seq<Shadow>, s: Store, h: nat)
    requires Inv(shadows, s) && FIRST_HANDLE <= h < s.idle
    ensures IsRootHandle(s, h) <==> CallerOf(s, h) == ROOT_CALLER_HANDLE
  {
    assert Owns(s, s.owners[h].value, h);
    var node := s.nodes[s.owners[h].value];
    assert Keyed(shadows, node);
    LayoutBounds(s);
  }

  /** The calling vector is the program counters along the chain, up to the thread root. */
  lemma {:induction false} IpsAlongChain(shadows: seq<Shadow>, s: Store, h: nat)
    requires Inv(shadows, s) && FIRST_HANDLE <= h < s.idle
    ensures var chain, ips := CallChain(s, h), CallingIps(shadows, s, h);
            && |chain| == |ips| + 2
            && forall k :: 0 <= k < |ips| ==> ValidHandle(s, chain[k]) && ips[k] == HandlePc(shadows, s, chain[k])
    decreases h
  {
    RootIffCaller(shadows, s, h);
    var caller := CallerOf(s, h);
    if IsRootHandle(s, h) {
      assert CallChain(s, ROOT_CALLER_HANDLE) == [ROOT_CALLER_HANDLE];
    } else {
      IpsAlongChain(shadows, s, caller);
      var chain, rest := CallChain(s, h), CallChain(s, caller);
      assert forall k :: 0 < k < |chain| ==> chain[k] == rest[k - 1];
    }
  }

  /** `drcctlib_have_same_call_path` */
  ghost predicate HaveSameCallPath(shadows: seq<Shadow>, s: Store, h1: nat, h2: nat)
    requires Inv(shadows, s) && ValidHandle(s, h1) && ValidHandle(s, h2)
    decreases h1
  {
    h1 == h2 ||
    (h1 != ROOT_CALLER_HANDLE && h2 != ROOT_CALLER_HANDLE
     && HaveSameCallPath(shadows, s, CallerOf(s, h1), CallerOf(s, h2))
     && HandlePc(shadows, s, h1) == HandlePc(shadows, s, h2))
  }

  /** The recursive comparison decides equality of the calling vectors, also across threads. */
  lemma {:induction false} SameCallPathMeansSameIps(shadows: seq<Shadow>, s: Store, h1: nat, h2: nat)
    requires Inv(shadows, s) && FIRST_HANDLE <= h1 < s.idle && FIRST_HANDLE <= h2 < s.idle
    ensures HaveSameCallPath(shadows, s, h1, h2) <==> CallingIps(shadows, s, h1) == CallingIps(shadows, s, h2)
    decreases h1
  {
    RootIffCaller(shadows, s, h1);
    RootIffCaller(shadows, s, h2);
    var p1, p2 := CallerOf(s, h1), CallerOf(s, h2);
    if !IsRootHandle(s, h1) && !IsRootHandle(s, h2) {
      SameCallPathMeansSameIps(shadows, s, p1, p2);
      var v1, v2 := CallingIps(shadows, s, h1), CallingIps(shadows, s, h2);
      assert v1[0] == HandlePc(shadows, s, h1) && v1[1..] == CallingIps(shadows, s, p1);
      assert v2[0] == HandlePc(shadows, s, h2) && v2[1..] == CallingIps(shadows, s, p2);
    }
  }

  /** `drcctlib_priv_share_get_full_calling_ip_vector` */
  method GetFullCallingIpVector(shadows: seq<Shadow>, s: Store, h: nat) returns (list: seq<int>)
    requires Inv(shadows, s) && FIRST_HANDLE <= h < s.idle
    ensures list == CallingIps(shadows, s, h)
  {
    list := [];
    var cur := h;
    while true
      invariant FIRST_HANDLE <= cur < s.idle
      invariant list + CallingIps(shadows, s, cur) == CallingIps(shadows, s, h)
      decreases cur
    {
      assert Owns(s, s.owners[cur].value, cur);
      var node := s.nodes[s.owners[cur].value];
      assert Keyed(shadows, node);
      if node.key == ROOT_KEY {
        break;
      }
      RootIffCaller(shadows, s, cur);
      list := list + [shadows[node.key].ips[cur - node.start]];
      cur := BbNodeCallerHandle(s, cur);
    }
  }
}
