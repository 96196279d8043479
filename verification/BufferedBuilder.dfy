/** The buffered builder on its per-thread record: the 256-entry array, the write pointer, and
    the replay loop of a flush. */
module BufferedBuilder {
  import opened Options
  import opened Cct
  import opened CctBuilder
  import opened FlushMachine
  import opened BlockBuffer

  class BufferedThread {
    const globals: Globals
    const root: nat
    const bbCache: array<Option<nat>>
    var cur: nat
    var preState: bv8
    var preKey: nat
    var curStart: nat
    /** The entry `BUF_PTR2` points at; its `index` field is one more. */
    var ptr: nat
    /** The block-end callbacks the client has received. */
    var log: seq<Callback>
    ghost var pending: seq<nat>

    /** The tree state, with the previous block's end state read off its shadow as the replay does. */
    ghost function View(): State
      requires globals.Sized() && preKey < |globals.shadows|
      reads this, globals, globals.ipNodes
    {
      State(globals.View(), Cursor(root, cur, globals.shadows[preKey].endState), preKey, log)
    }

    ghost predicate Core()
      reads this, globals, globals.ipNodes
    {
      && globals.Valid() && preKey < |globals.shadows| && StateInv(globals.shadows, View())
      && bbCache != globals.ipNodes && bbCache.Length == BB_CACHE_MAX
    }

    /** Slots `from` to |keys| hold their keys, in order, and every other slot is empty. */
    ghost predicate Holds(keys: seq<nat>, from: nat)
      requires bbCache.Length == BB_CACHE_MAX && from >= 1
      reads bbCache
    {
      && |keys| < BB_CACHE_MAX
      && forall i :: 0 <= i < BB_CACHE_MAX ==>
           bbCache[i] == if from <= i <= |keys| then Some(keys[i - 1]) else None
    }

    ghost predicate Valid()
      reads this, globals, globals.ipNodes, bbCache
    {
      && Core() && Blocks(globals.shadows, pending)
      && preState == globals.shadows[preKey].endState && curStart == globals.nodes[cur].start
      && ptr == (if ptr == 0 then 0 else |pending| + 1) && WellFilled(Now()) && Holds(pending, 1)
    }

    ghost function Now(): Machine<State>
      requires globals.Sized() && preKey < |globals.shadows|
      reads this, globals, globals.ipNodes
    {
      Machine(View(), ptr != 0, pending)
    }

    /** `pt_init` */
    constructor (globals: Globals)
      requires globals.Valid() && !globals.exited
      modifies globals, globals.ipNodes
      ensures this.globals == globals && globals.Valid() && fresh(bbCache)
      ensures preKey == ROOT_KEY && log == []
      ensures (globals.View(), Cursor(root, cur, STATE_ROOT_VIRTUAL)) == StartThread(old(globals.View()))
      ensures !globals.exited ==> Valid() && !Now().started && OnKey(globals.shadows, View())
    {
      StartKeepsInv(globals.shadows, globals.View());
      var id := globals.BbNodeCreate(ROOT_KEY, None, 1);
      this.globals := globals;
      root, cur := id, id;
      preState, preKey := STATE_ROOT_VIRTUAL, ROOT_KEY;
      curStart := if id < |globals.nodes| then globals.nodes[id].start else 0;
      bbCache := new Option<nat>[BB_CACHE_MAX](_ => None);
      ptr, log, pending := 0, [], [];
    }

    /** One turn of the replay loop. */
    method ReplayBlock(key: nat)
      requires Core() && !globals.exited && 0 < key < |globals.shadows|
      modifies this`cur, this`preKey, this`log, globals, globals.ipNodes
      ensures Core() && View() == ReplayOne(globals.shadows, old(View()), key)
    {
      StepKeeps(globals.shadows, globals.View(), View().cursor, key);
      log := log + [Callback(globals.nodes[cur].start, globals.shadows[preKey].slots)];
      var caller := globals.SelectCaller(Cursor(root, cur, globals.shadows[preKey].endState));
      var id := globals.Enter(caller, key);
      if !globals.exited {
        cur := id;
        preKey := key;
      }
    }

    /** The replay of entry `i` of a buffer that holds `keys`, in a flush begun at `start`. */
    method ReplayEntry(i: nat, ghost keys: seq<nat>, ghost start: State)
      requires Core() && !globals.exited && Blocks(globals.shadows, keys)
      requires 1 <= i <= |keys| && Holds(keys, i)
      requires View() == Replay(globals.shadows, start, keys[..i - 1])
      modifies this`cur, this`preKey, this`log, globals, globals.ipNodes, bbCache
      ensures Core() && View() == Replay(globals.shadows, start, keys[..i])
      ensures globals.exited ==> View() == Replay(globals.shadows, start, keys)
      ensures !globals.exited ==> Holds(keys, i + 1)
    {
      var key := bbCache[i].value;
      assert keys[..i] == keys[..i - 1] + [key];
      FoldSnoc(Replayer(globals.shadows), start, keys[..i - 1], key);
      ReplayBlock(key);
      if globals.exited {
        ExitedReplay(globals.shadows, start, keys, i);
      } else {
        bbCache[i] := None;
      }
    }

    method ReplayEntries(ghost keys: seq<nat>)
      requires Core() && !globals.exited && Holds(keys, 1) && Blocks(globals.shadows, keys)
      modifies this`cur, this`preKey, this`log, globals, globals.ipNodes, bbCache
      ensures Core() && View() == Replay(globals.shadows, old(View()), keys)
      ensures !globals.exited ==> Holds([], 1)
    {
      var i := 1;
      while i < BB_CACHE_MAX && bbCache[i].Some?
        modifies this`cur, this`preKey, this`log, globals, globals.ipNodes, bbCache
        invariant 1 <= i <= |keys| + 1
        invariant Core() && !globals.exited && Holds(keys, i)
        invariant View() == Replay(globals.shadows, old(View()), keys[..i - 1])
        decreases BB_CACHE_MAX - i
      {
        ReplayEntry(i, keys, old(View()));
        if globals.exited {
          return;
        }
        i := i + 1;
      }
      assert keys[..i - 1] == keys;
    }

    /** `per_thread_refresh_bb_cache` */
    method RefreshBbCache(ghost keys: seq<nat>)
      requires Core() && !globals.exited && Holds(keys, 1) && Blocks(globals.shadows, keys)
      modifies this, globals, globals.ipNodes, bbCache
      ensures Core() && View() == Replay(globals.shadows, old(View()), keys)
      ensures !globals.exited && keys == [] ==> unchanged(this) && unchanged(globals) && Holds([], 1)
      ensures !globals.exited && keys != [] ==>
                && Holds([], 1) && ptr == 1 && pending == []
                && preState == globals.shadows[preKey].endState && curStart == globals.nodes[cur].start
    {
      if bbCache[1] == None {
        return;
      }
      ReplayEntries(keys);
      curStart := globals.nodes[cur].start;
      preState := globals.shadows[preKey].endState;
      ptr, pending := 1, [];
    }

    /** `per_thread_init_stack_cache`: the very first block moves from slot 0 to slot 1. */
    method InitStackCache(ghost keys: seq<nat>)
      requires bbCache.Length == BB_CACHE_MAX
      requires Holds(keys, 1) || HoldsFirst(keys)
      modifies bbCache
      ensures Holds(keys, 1)
    {
      if bbCache[0].Some? {
        bbCache[1] := bbCache[0];
        bbCache[0] := None;
      }
    }

    /** `refresh_per_thread_cct_tree`, on demand between blocks. */
    method Refresh()
      requires Valid() && !globals.exited
      modifies this, globals, globals.ipNodes, bbCache
      ensures Core() && View() == Replay(globals.shadows, old(View()), old(pending))
      ensures !globals.exited ==> Valid() && Now() == Flush(Replayer(globals.shadows), old(Now()))
    {
      InitStackCache(pending);
      RefreshBbCache(pending);
    }

    /** The first block ever noted, still in slot 0. */
    ghost predicate HoldsFirst(keys: seq<nat>)
      requires bbCache.Length == BB_CACHE_MAX
      reads bbCache
    {
      |keys| == 1 && forall i :: 0 <= i < BB_CACHE_MAX ==> bbCache[i] == if i == 0 then Some(keys[0]) else None
    }

    /** The store that opens the code inserted before a block. */
    method StoreBlock(key: nat)
      requires Valid() && !globals.exited && 0 < key < |globals.shadows|
      modifies bbCache
      ensures Core() && View() == old(View())
      ensures Blocks(globals.shadows, pending + [key])
      ensures if ptr == 0 then HoldsFirst(pending + [key]) else Holds(pending + [key], 1)
    {
      bbCache[ptr] := Some(key);
    }

    /** The flush the inserted code calls, with the entering block already noted. */
    method FlushNoted(ghost keys: seq<nat>)
      requires Core() && !globals.exited && keys != [] && Blocks(globals.shadows, keys)
      requires Holds(keys, 1) || HoldsFirst(keys)
      modifies this, globals, globals.ipNodes, bbCache
      ensures Core() && View() == Replay(globals.shadows, old(View()), keys)
      ensures !globals.exited ==> Valid() && pending == [] && ptr == 1
    {
      InitStackCache(keys);
      RefreshBbCache(keys);
    }

    /** The code inserted before every block. */
    method BeforeEveryBbFirst(key: nat)
      requires Valid() && !globals.exited && 0 < key < |globals.shadows|
      modifies this, globals, globals.ipNodes, bbCache
      ensures Core()
      ensures globals.exited ==> View() == Replay(globals.shadows, old(View()), old(pending) + [key])
      ensures !globals.exited ==> Valid() && Now() == Note(Replayer(globals.shadows), old(Now()), key)
    {
      ghost var keys := pending + [key];
      StoreBlock(key);
      var index := ptr + 1;
      if index == 1 || index == BB_CACHE_MAX {
        FlushNoted(keys);
      } else {
        ptr := ptr + 1;
        pending := keys;
      }
    }

    /** `drcctlib_event_thread_end`: a last flush, then the end of the last block. */
    method ThreadEnd()
      requires Valid() && !globals.exited
      modifies this, globals, globals.ipNodes, bbCache
      ensures Core()
      ensures !globals.exited ==>
                var final := Replay(globals.shadows, old(View()), old(pending));
                StateInv(globals.shadows, final) && View() == final.(log := EndLog(globals.shadows, final))
    {
      Refresh();
      if globals.exited {
        return;
      }
      log := log + [Callback(globals.nodes[cur].start, globals.shadows[preKey].slots)];
    }
  }

  lemma {:induction false} ExitedReplay(shadows: seq<Shadow>, b: State, keys: seq<nat>, n: nat)
    requires n <= |keys| && Replay(shadows, b, keys[..n]).store.exited
    ensures Replay(shadows, b, keys) == Replay(shadows, b, keys[..n])
  {
    if n == |keys| {
      assert keys[..n] == keys;
    } else {
      var last := |keys| - 1;
      assert keys[..last][..n] == keys[..n];
      ExitedReplay(shadows, b, keys[..last], n);
    }
  }
}
