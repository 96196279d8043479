/** The immediate builder: one clean call per executed block, updating the globals and the
    per-thread record in place. */
module CctBuilder {
  import opened Options
  import opened SplayTree
  import opened Cct
  import CctHandles

  /** The process-wide buffers: the block-node cache and the handle buffer with its idle index. */
  class Globals {
    const shadows: seq<Shadow>
    const ipNodes: array<Option<nat>>
    var nodes: seq<BbNode>
    var idle: nat
    var exited: bool

    ghost predicate Sized()
      reads this
    {
      ipNodes.Length == CONTEXT_HANDLE_MAX && idle <= CONTEXT_HANDLE_MAX
    }

    ghost function View(): Store
      requires Sized()
      reads this, ipNodes
    {
      Store(nodes, idle, ipNodes[..idle], exited)
    }

    ghost predicate Valid()
      reads this, ipNodes
    {
      Sized() && Inv(shadows, View())
    }

    constructor (shadows: seq<Shadow>)
      requires ValidShadows(shadows)
      ensures Valid() && View() == EMPTY && this.shadows == shadows && fresh(ipNodes)
    {
      this.shadows := shadows;
      ipNodes := new Option<nat>[CONTEXT_HANDLE_MAX](_ => None);
      nodes, idle, exited := [], FIRST_HANDLE, false;
    }

    /** `cur_child_ctxt_start_idx`: takes `num` handles, or exits the process. */
    method CurChildCtxtStartIdx(num: nat) returns (start: nat)
      requires Sized()
      modifies this`idle, this`exited
      ensures Sized() && start == old(idle)
      ensures exited == (old(exited) || old(idle) + num >= CONTEXT_HANDLE_MAX)
      ensures idle == if old(idle) + num >= CONTEXT_HANDLE_MAX then old(idle) else old(idle) + num
    {
      start := idle;
      if idle + num >= CONTEXT_HANDLE_MAX {
        exited := true;
      } else {
        idle := idle + num;
      }
    }

    /** `bb_node_create`: a node with fresh handles, each of which is pointed back at it. */
    method BbNodeCreate(key: nat, parent: Option<nat>, num: nat) returns (id: nat)
      requires Sized() && !exited
      modifies this, ipNodes
      ensures Sized() && View() == CreateNode(old(View()), key, parent, num)
      ensures id == |old(nodes)|
    {
      id := |nodes|;
      var start := CurChildCtxtStartIdx(num);
      if exited {
        return;
      }
      nodes := nodes + [BbNode(key, parent, start, num, Leaf)];
      for i := 0 to num
        modifies ipNodes
        invariant ipNodes[..start] == old(ipNodes[..idle])
        invariant forall j :: start <= j < start + i ==> ipNodes[j] == Some(id)
      {
        ipNodes[start + i] := Some(id);
      }
    }

    /** The node under which the next block is looked up, from how the previous one ended. */
    method SelectCaller(c: Cursor) returns (caller: nat)
      requires Valid() && CursorInv(View(), c)
      ensures caller == Caller(View(), c)
    {
      if IsVirtual(c.preState) {
        caller := c.root;
      } else if IsCall(c.preState) {
        caller := c.cur;
      } else {
        NotRoot(View(), c);
        caller := nodes[c.cur].parent.value;
        if IsReturn(c.preState) && caller != c.root {
          caller := nodes[caller].parent.value;
        }
      }
    }

    /** The lookup in the callee tree of `caller`, with creation when the key is new. */
    method Enter(caller: nat, key: nat) returns (id: nat)
      requires Valid() && !exited && caller < |nodes| && 0 < key < |shadows|
      modifies this, ipNodes
      ensures Valid()
      ensures (View(), id) == EnterBlock(shadows, old(View()), caller, key)
    {
      EnterCase(shadows, View(), caller, key);
      EnterBlockKeeps(shadows, View(), caller, key);
      var root := Splay(nodes[caller].callees, key, None);
      if root.value == None {
        var created := BbNodeCreate(key, Some(caller), shadows[key].slots);
        if exited {
          return caller;
        }
        root := root.(value := Some(created));
      }
      nodes := nodes[caller := nodes[caller].(callees := root)];
      id := root.value.value;
    }
  }

  /** `per_thread_t` as the immediate mode uses it. */
  class ImmediateThread {
    const globals: Globals
    const root: nat
    var cur: nat
    var preState: bv8
    var curStart: nat
    var blockStarts: seq<(nat, nat)>

    function CursorNow(): Cursor
      reads this
    {
      Cursor(root, cur, preState)
    }

    ghost predicate Valid()
      reads this, globals, globals.ipNodes
    {
      && globals.Valid() && CursorInv(globals.View(), CursorNow())
      && curStart == globals.nodes[cur].start
    }

    /** `pt_init` without the buffers. When the root node gets no handle the process exits. */
    constructor (globals: Globals)
      requires globals.Valid() && !globals.exited
      modifies globals, globals.ipNodes
      ensures this.globals == globals && globals.Valid()
      ensures (globals.View(), CursorNow()) == StartThread(old(globals.View())) && blockStarts == []
      ensures !globals.exited ==> Valid()
    {
      StartKeepsInv(globals.shadows, globals.View());
      var id := globals.BbNodeCreate(ROOT_KEY, None, 1);
      this.globals := globals;
      root, cur := id, id;
      preState := STATE_ROOT_VIRTUAL;
      curStart := if id < |globals.nodes| then globals.nodes[id].start else 0;
      blockStarts := [];
    }

    /** `instrument_before_bb_first_instr`, ending with the client's block-start callback. */
    method BeforeBbFirstInstr(key: nat)
      requires Valid() && !globals.exited && 0 < key < |globals.shadows|
      modifies this, globals, globals.ipNodes
      ensures globals.Valid()
      ensures (globals.View(), CursorNow()) == Step(globals.shadows, old(globals.View()), old(CursorNow()), key)
      ensures !globals.exited ==>
                && Valid()
                && blockStarts == old(blockStarts) + [(globals.shadows[key].slots, globals.shadows[key].memRefs)]
    {
      StepKeeps(globals.shadows, globals.View(), CursorNow(), key);
      var caller := globals.SelectCaller(CursorNow());
      var id := globals.Enter(caller, key);
      if globals.exited {
        return;
      }
      cur := id;
      curStart := globals.nodes[cur].start;
      preState := globals.shadows[key].endState;
      blockStarts := blockStarts + [(globals.shadows[key].slots, globals.shadows[key].memRefs)];
    }

    /** `drcctlib_get_context_handle`: the handle of the slot's instruction in the current block. */
    method GetContextHandle(slot: nat) returns (h: Option<nat>)
      requires Valid()
      ensures h == CctHandles.ContextHandle(globals.View(), cur, slot)
      ensures h.Some? <==> slot < globals.nodes[cur].slots
      ensures h.Some? ==>
                && h.value < globals.idle && globals.View().owners[h.value] == Some(cur)
                && globals.nodes[cur].key < |globals.shadows| && slot < |globals.shadows[globals.nodes[cur].key].ips|
                && CctHandles.HandlePc(globals.shadows, globals.View(), h.value)
                   == globals.shadows[globals.nodes[cur].key].ips[slot]
    {
      CctHandles.HandleIsInstruction(globals.shadows, globals.View(), cur, slot);
      if slot >= globals.nodes[cur].slots {
        return None;
      }
      return Some(globals.nodes[cur].start + slot);
    }

    /** Two instructions of a block have the same handle iff they are the same. */
    method GetTwoHandles(a: nat, b: nat) returns (x: Option<nat>, y: Option<nat>)
      requires Valid() && a < globals.nodes[cur].slots && b < globals.nodes[cur].slots
      ensures x.Some? && y.Some? && (x == y <==> a == b)
    {
      x := GetContextHandle(a);
      y := GetContextHandle(b);
      CctHandles.HandlesAreCanonical(globals.shadows, globals.View(), cur, a, cur, b);
    }
  }
}
