/** The 256-entry buffer in front of the builder, for any effect `f` a replayed block has. */
module FlushMachine {

  const BB_CACHE_MAX: nat := 256

  function Fold<S, K>(f: (S, K) -> S, s: S, keys: seq<K>): S {
    if keys == [] then s else f(Fold(f, s, keys[..|keys| - 1]), keys[|keys| - 1])
  }

  lemma {:induction false} FoldAppend<S, K>(f: (S, K) -> S, s: S, xs: seq<K>, ys: seq<K>)
    ensures Fold(f, Fold(f, s, xs), ys) == Fold(f, s, xs + ys)
  {
    if ys == [] {
      assert xs + ys == xs;
    } else {
      var last := |ys| - 1;
      FoldAppend(f, s, xs, ys[..last]);
      assert (xs + ys)[..|xs + ys| - 1] == xs + ys[..last];
    }
  }

  lemma FoldSnoc<S, K>(f: (S, K) -> S, s: S, keys: seq<K>, key: K)
    ensures Fold(f, s, keys + [key]) == f(Fold(f, s, keys), key)
  {
    assert (keys + [key])[..|keys|] == keys;
  }

  /** `pending` are the blocks noted since the last flush. Before the first block the write
      pointer is at slot 0; from then on slot 0 is unused and the pending run starts at slot 1. */
  datatype Machine<S> = Machine(state: S, started: bool, pending: seq<nat>)

  predicate WellFilled<S>(m: Machine<S>) {
    |m.pending| <= BB_CACHE_MAX - 2 && (!m.started ==> m.pending == [])
  }

  function Flush<S>(f: (S, nat) -> S, m: Machine<S>): Machine<S> {
    Machine(Fold(f, m.state, m.pending), m.started, [])
  }

  /** The code inserted before a block: store, then flush when the entry's index is 1 or 256,
      else advance. */
  function Note<S>(f: (S, nat) -> S, m: Machine<S>, key: nat): Machine<S> {
    var pending := m.pending + [key];
    if !m.started || |pending| + 1 == BB_CACHE_MAX
    then Machine(Fold(f, m.state, pending), true, [])
    else m.(pending := pending)
  }

  datatype Op = Execute(key: nat) | Refresh

  function Executed(ops: seq<Op>): seq<nat> {
    if ops == [] then [] else
    var last := |ops| - 1;
    Executed(ops[..last]) + if ops[last].Execute? then [ops[last].key] else []
  }

  /** A thread's life: blocks and on-demand refreshes in any order. */
  function Drive<S>(f: (S, nat) -> S, s: S, ops: seq<Op>): (m: Machine<S>)
    ensures WellFilled(m)
  {
    if ops == [] then Machine(s, false, []) else
    var last := |ops| - 1;
    var m := Drive(f, s, ops[..last]);
    if ops[last].Execute? then Note(f, m, ops[last].key) else Flush(f, m)
  }

  /** At any time the replayed state and the pending blocks together make up exactly the
      blocks executed so far, whatever flushes have happened. */
  lemma {:induction false} PendingCompletes<S>(f: (S, nat) -> S, s: S, ops: seq<Op>)
    ensures var m := Drive(f, s, ops); Fold(f, m.state, m.pending) == Fold(f, s, Executed(ops))
  {
    if ops != [] {
      var last := |ops| - 1;
      PendingCompletes(f, s, ops[..last]);
      var m := Drive(f, s, ops[..last]);
      if ops[last].Execute? {
        FoldSnoc(f, m.state, m.pending, ops[last].key);
        FoldSnoc(f, s, Executed(ops[..last]), ops[last].key);
      } else {
        assert Executed(ops) == Executed(ops[..last]);
      }
    }
  }
}
