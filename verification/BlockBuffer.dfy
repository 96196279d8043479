/** What replaying a block does to the tree, and why the buffer in front of it does not matter:
    a buffered thread ends with the tree, the handles and the callbacks of immediate mode. */
module BlockBuffer {
  import opened Cct
  import opened FlushMachine

  /** What the client sees at the end of a block: its first handle and its slot count. */
  datatype Callback = Callback(start: nat, slots: nat)

  /** The state between two replayed blocks. */
  datatype State = State(store: Store, cursor: Cursor, preKey: nat, log: seq<Callback>)

  ghost predicate StateInv(shadows: seq<Shadow>, b: State) {
    && Inv(shadows, b.store) && CursorInv(b.store, b.cursor)
    && b.preKey < |shadows| && b.cursor.preState == shadows[b.preKey].endState
  }

  function BlockEnd(shadows: seq<Shadow>, b: State): Callback
    requires b.cursor.cur < |b.store.nodes| && b.preKey < |shadows|
  {
    Callback(b.store.nodes[b.cursor.cur].start, shadows[b.preKey].slots)
  }

  /** One turn of the replay loop: the end of the previous block, then the step for this one. */
  ghost function ReplayOne(shadows: seq<Shadow>, b: State, key: nat): State {
    if !(StateInv(shadows, b) && 0 < key < |shadows|) || b.store.exited then b else
    var (s', c') := Step(shadows, b.store, b.cursor, key);
    State(s', c', if s'.exited then b.preKey else key, b.log + [BlockEnd(shadows, b)])
  }

  ghost function Replayer(shadows: seq<Shadow>): (State, nat) -> State {
    (b: State, key: nat) => ReplayOne(shadows, b, key)
  }

  ghost function Replay(shadows: seq<Shadow>, b: State, keys: seq<nat>): State {
    Fold(Replayer(shadows), b, keys)
  }

  ghost predicate Blocks(shadows: seq<Shadow>, keys: seq<nat>) {
    forall i :: 0 <= i < |keys| ==> 0 < keys[i] < |shadows|
  }

  lemma ReplayOneKeeps(shadows: seq<Shadow>, b: State, key: nat)
    requires StateInv(shadows, b)
    ensures StateInv(shadows, ReplayOne(shadows, b, key)) && Extends(b.store, ReplayOne(shadows, b, key).store)
  {
    if 0 < key < |shadows| {
      StepKeeps(shadows, b.store, b.cursor, key);
    }
  }

  lemma {:induction false} ReplayKeeps(shadows: seq<Shadow>, b: State, keys: seq<nat>)
    requires StateInv(shadows, b)
    ensures StateInv(shadows, Replay(shadows, b, keys))
  {
    if keys != [] {
      ReplayKeeps(shadows, b, keys[..|keys| - 1]);
      ReplayOneKeeps(shadows, Replay(shadows, b, keys[..|keys| - 1]), keys[|keys| - 1]);
    }
  }

  /** Immediate mode: one step per block. */
  ghost function RunBlocks(shadows: seq<Shadow>, s: Store, c: Cursor, keys: seq<nat>): (r: (Store, Cursor))
    requires Inv(shadows, s) && CursorInv(s, c) && Blocks(shadows, keys)
    ensures Inv(shadows, r.0) && CursorInv(r.0, r.1)
  {
    if keys == [] then (s, c) else
    var (s', c') := RunBlocks(shadows, s, c, keys[..|keys| - 1]);
    StepKeeps(shadows, s', c', keys[|keys| - 1]);
    Step(shadows, s', c', keys[|keys| - 1])
  }

  lemma ReplayOneIsStep(shadows: seq<Shadow>, b: State, key: nat)
    requires StateInv(shadows, b) && 0 < key < |shadows|
    ensures var b' := ReplayOne(shadows, b, key); (b'.store, b'.cursor) == Step(shadows, b.store, b.cursor, key)
  {
  }

  lemma {:induction false} ReplayIsRun(shadows: seq<Shadow>, b: State, keys: seq<nat>)
    requires StateInv(shadows, b) && Blocks(shadows, keys)
    ensures var b' := Replay(shadows, b, keys);
            (b'.store, b'.cursor) == RunBlocks(shadows, b.store, b.cursor, keys)
  {
    if keys != [] {
      ReplayIsRun(shadows, b, keys[..|keys| - 1]);
      ReplayKeeps(shadows, b, keys[..|keys| - 1]);
      ReplayOneIsStep(shadows, Replay(shadows, b, keys[..|keys| - 1]), keys[|keys| - 1]);
    }
  }

  /** For every block sequence and every flush schedule, the final flush leaves the store, the
      handles and the current node that immediate mode builds from the same blocks. */
  lemma BufferedRefinesImmediate(shadows: seq<Shadow>, b: State, ops: seq<Op>)
    requires StateInv(shadows, b) && Blocks(shadows, Executed(ops))
    ensures var final := Flush(Replayer(shadows), Drive(Replayer(shadows), b, ops)).state;
            (final.store, final.cursor) == RunBlocks(shadows, b.store, b.cursor, Executed(ops))
  {
    PendingCompletes(Replayer(shadows), b, ops);
    ReplayIsRun(shadows, b, Executed(ops));
  }

  // ---- the callbacks ----

  /** The node on which immediate mode stands after the first `i` blocks. */
  ghost function Visited(shadows: seq<Shadow>, b: State, keys: seq<nat>, i: nat): nat
    requires i <= |keys|
  {
    Replay(shadows, b, keys[..i]).cursor.cur
  }

  /** The log of a thread that ends: `per_thread_end_bb_cache_refresh` adds the last block. */
  ghost function EndLog(shadows: seq<Shadow>, b: State): seq<Callback>
    requires StateInv(shadows, b)
  {
    b.log + [BlockEnd(shadows, b)]
  }

  ghost predicate AtNode(s: Store, node: nat, call: Callback) {
    node < |s.nodes| && call == Callback(s.nodes[node].start, s.nodes[node].slots)
  }

  /** A node keeps its handles and slots: its callbacks read the same at the end of the run. */
  lemma AtNodePersists(s: Store, s': Store, node: nat, call: Callback)
    requires Extends(s, s') && AtNode(s, node, call)
    ensures AtNode(s', node, call)
  {
    assert SameNode(s.nodes[node], s'.nodes[node]);
  }

  /** The cursor is on a node of the block last replayed, so the block end names that node. */
  ghost predicate OnKey(shadows: seq<Shadow>, b: State) {
    StateInv(shadows, b) && b.store.nodes[b.cursor.cur].key == b.preKey
  }

  lemma OnKeyAtNode(shadows: seq<Shadow>, b: State)
    requires OnKey(shadows, b)
    ensures AtNode(b.store, b.cursor.cur, BlockEnd(shadows, b))
  {
    assert Keyed(shadows, b.store.nodes[b.cursor.cur]);
  }

  lemma ReplayOneLogs(shadows: seq<Shadow>, b: State, key: nat)
    requires OnKey(shadows, b) && 0 < key < |shadows| && !ReplayOne(shadows, b, key).store.exited
    ensures var b' := ReplayOne(shadows, b, key);
            && OnKey(shadows, b') && b'.log == EndLog(shadows, b) && Extends(b.store, b'.store) && !b.store.exited
            && AtNode(b'.store, b'.cursor.cur, BlockEnd(shadows, b'))
  {
    ReplayOneKeeps(shadows, b, key);
    EnterBlockKeeps(shadows, b.store, Caller(b.store, b.cursor), key);
    OnKeyAtNode(shadows, ReplayOne(shadows, b, key));
  }

  ghost predicate LogsVisits(shadows: seq<Shadow>, b: State, keys: seq<nat>, s: Store, log: seq<Callback>) {
    && |log| == |keys| + 1
    && forall i :: 0 <= i <= |keys| ==> AtNode(s, Visited(shadows, b, keys, i), log[i])
  }

  lemma ExitedSticks(shadows: seq<Shadow>, b: State, key: nat)
    ensures b.store.exited ==> ReplayOne(shadows, b, key).store.exited
  {
  }

  lemma LogGrows(shadows: seq<Shadow>, b: State, keys: seq<nat>, s: Store, s': Store, log: seq<Callback>, call: Callback)
    requires keys != [] && LogsVisits(shadows, b, keys[..|keys| - 1], s, log) && Extends(s, s')
    requires AtNode(s', Visited(shadows, b, keys, |keys|), call)
    ensures LogsVisits(shadows, b, keys, s', log + [call])
  {
    forall i | 0 <= i < |keys| ensures AtNode(s', Visited(shadows, b, keys, i), log[i]) {
      assert keys[..|keys| - 1][..i] == keys[..i];
      AtNodePersists(s, s', Visited(shadows, b, keys[..|keys| - 1], i), log[i]);
    }
  }

  /** The callbacks of a run: block by block, each at the node visited, in execution order. */
  lemma {:induction false} LogIsVisits(shadows: seq<Shadow>, b: State, keys: seq<nat>)
    requires OnKey(shadows, b) && Blocks(shadows, keys) && b.log == []
    requires !Replay(shadows, b, keys).store.exited
    ensures var b' := Replay(shadows, b, keys);
            OnKey(shadows, b') && LogsVisits(shadows, b, keys, b'.store, EndLog(shadows, b'))
  {
    var b' := Replay(shadows, b, keys);
    assert keys[..|keys|] == keys;
    if keys == [] {
      OnKeyAtNode(shadows, b);
    } else {
      var last := |keys| - 1;
      var b1 := Replay(shadows, b, keys[..last]);
      assert b' == ReplayOne(shadows, b1, keys[last]);
      ExitedSticks(shadows, b1, keys[last]);
      LogIsVisits(shadows, b, keys[..last]);
      ReplayOneLogs(shadows, b1, keys[last]);
      LogGrows(shadows, b, keys, b1.store, b'.store, EndLog(shadows, b1), BlockEnd(shadows, b'));
    }
  }

  /** A buffered run of n blocks ended by thread exit issues exactly n + 1 block-end callbacks,
      the virtual root's first, then each block's once at the node immediate mode visits,
      whatever the flush schedule was. */
  lemma BufferedCallbacks(shadows: seq<Shadow>, b: State, ops: seq<Op>)
    requires OnKey(shadows, b) && Blocks(shadows, Executed(ops)) && b.log == []
    requires !Flush(Replayer(shadows), Drive(Replayer(shadows), b, ops)).state.store.exited
    ensures var keys, final := Executed(ops), Flush(Replayer(shadows), Drive(Replayer(shadows), b, ops)).state;
            && StateInv(shadows, final)
            && LogsVisits(shadows, b, keys, final.store, EndLog(shadows, final))
            && Visited(shadows, b, keys, 0) == b.cursor.cur
            && forall i :: 0 <= i <= |keys| ==>
                 Visited(shadows, b, keys, i) == RunBlocks(shadows, b.store, b.cursor, keys[..i]).1.cur
  {
    var keys := Executed(ops);
    PendingCompletes(Replayer(shadows), b, ops);
    LogIsVisits(shadows, b, keys);
    assert keys[..0] == [];
    forall i | 0 <= i <= |keys|
      ensures Visited(shadows, b, keys, i) == RunBlocks(shadows, b.store, b.cursor, keys[..i]).1.cur
    {
      ReplayIsRun(shadows, b, keys[..i]);
    }
  }
}
