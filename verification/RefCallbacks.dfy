/** The block-end callback of the mode that collects memory references, with both its parts: the
    handles of the block that ended, from the tree, and its references, from the buffer. */
module RefCallbacks {
  import opened Options
  import opened Cct
  import opened CctHandles
  import opened FlushMachine
  import opened BlockBuffer
  import opened MemRefBuffer

  /** A callback names the node visited, so each reference's slot gives a handle of that node. */
  ghost predicate NamesNode(s: Store, node: nat, call: Callback) {
    && AtNode(s, node, call)
    && call.start + call.slots <= |s.owners|
    && forall h :: call.start <= h < call.start + call.slots ==> s.owners[h] == Some(node)
  }

  lemma AtNodeNames(shadows: seq<Shadow>, s: Store, node: nat, call: Callback)
    requires Inv(shadows, s) && AtNode(s, node, call)
    ensures NamesNode(s, node, call)
  {
    LayoutBounds(s);
    forall h | call.start <= h < call.start + call.slots ensures s.owners[h] == Some(node) {
      OwnerOfHandle(s, node, h);
    }
  }

  /** Callback `i` is at the node that immediate mode visits with block `i`, and has exactly that
      block's references; only the last block's are missing. */
  ghost predicate Attributed(shadows: seq<Shadow>, begun: State, history: seq<BlockRefs>, s: Store,
                             log: seq<Callback>, delivered: seq<BlockRefs>)
    requires history != []
  {
    var keys, last := Keys(history)[1..], |history| - 1;
    && |log| == |delivered| == |history|
    && (forall i :: 0 <= i <= last ==> NamesNode(s, Visited(shadows, begun, keys, i), log[i]))
    && (forall i :: 0 <= i < last ==> delivered[i] == history[i])
    && delivered[last] == BlockRefs(history[last].key, [])
  }

  lemma RunIsAttributed(shadows: seq<Shadow>, begun: State, history: seq<BlockRefs>, final: State, delivered: seq<BlockRefs>)
    requires OnKey(shadows, begun) && begun.log == [] && history != [] && Blocks(shadows, Keys(history)[1..])
    requires final == Fold(Replayer(shadows), begun, Keys(history)[1..]) && !final.store.exited
    requires var last := |history| - 1; delivered == history[..last] + [BlockRefs(history[last].key, [])]
    ensures StateInv(shadows, final)
    ensures Attributed(shadows, begun, history, final.store, EndLog(shadows, final), delivered)
  {
    var keys := Keys(history)[1..];
    LogIsVisits(shadows, begun, keys);
    var log := EndLog(shadows, final);
    forall i | 0 <= i < |history| ensures NamesNode(final.store, Visited(shadows, begun, keys, i), log[i]) {
      AtNodeNames(shadows, final.store, Visited(shadows, begun, keys, i), log[i]);
    }
  }

  /** The end of a thread in this mode, for every sequence of blocks, references and safe flushes
      that led to it, as long as the process has not run out of handles. */
  method EndThread(t: MemRefThread<State>, ghost shadows: seq<Shadow>)
    requires t.Valid() && t.step == Replayer(shadows) && OnKey(shadows, t.begun) && t.begun.log == []
    requires Blocks(shadows, Keys(t.History())[1..])
    modifies t, t.bbCache, t.refs
    ensures !t.tree.store.exited ==>
              && StateInv(shadows, t.tree)
              && Attributed(shadows, t.begun, old(t.History()), t.tree.store, EndLog(shadows, t.tree), t.delivered)
  {
    ghost var history := t.History();
    t.ThreadEnd();
    if !t.tree.store.exited {
      RunIsAttributed(shadows, t.begun, history, t.tree, t.delivered);
    }
  }
}
