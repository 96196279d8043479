/** The memory-reference buffer beside the block buffer: blocks append their references, a flush
    cuts the buffer up among the block-end callbacks and carries the rest to the front. */
module MemRefBuffer {
  import opened Options
  import opened FlushMachine

  const REF_CACHE_MAX: nat := 4096

  /** A recorded reference. Empty entries have address 0, and so has a reference whose address
      could not be computed. */
  datatype Ref = Ref(slot: nat, addr: nat)

  // ---- the carry at the end of a flush ----

  /** The left shift, from entry `last` on: up to `max`, or to the first empty entry. */
  function Shift(refs: seq<Ref>, start: nat, last: nat, max: nat): (seq<Ref>, nat)
    requires start <= last && max <= |refs|
    decreases max - last
  {
    if last < max && refs[last].addr != 0 then
      var moved := refs[last - start := Ref(refs[last].slot, refs[last].addr)];
      Shift(moved[last := moved[last].(addr := 0)], start, last + 1, max)
    else
      (refs, last)
  }

  function Clear(refs: seq<Ref>, from: nat, end: nat): seq<Ref>
    requires end <= |refs|
    decreases end - from
  {
    if from < end then Clear(refs[from := refs[from].(addr := 0)], from + 1, end) else refs
  }

  lemma {:induction false} ShiftSize(refs: seq<Ref>, start: nat, last: nat, max: nat)
    requires start <= last && max <= |refs|
    ensures var (refs', last') := Shift(refs, start, last, max);
            |refs'| == |refs| && last <= last' && (last <= max ==> last' <= max)
    decreases max - last
  {
    if last < max && refs[last].addr != 0 {
      var moved := refs[last - start := Ref(refs[last].slot, refs[last].addr)];
      ShiftSize(moved[last := moved[last].(addr := 0)], start, last + 1, max);
    }
  }

  /** The buffer and the write position after a flush whose current block began at `start`. */
  function Carry(refs: seq<Ref>, start: nat, max: nat): (seq<Ref>, nat)
    requires start <= max <= |refs|
  {
    ShiftSize(refs, start, start, max);
    var (shifted, last) := Shift(refs, start, start, max);
    (Clear(shifted, last - start, start), last - start)
  }

  lemma {:induction false} ClearEntries(refs: seq<Ref>, from: nat, end: nat)
    requires end <= |refs|
    ensures |Clear(refs, from, end)| == |refs|
    ensures forall i :: 0 <= i < |refs| ==>
              Clear(refs, from, end)[i] == if from <= i < end then refs[i].(addr := 0) else refs[i]
    decreases end - from
  {
    if from < end {
      ClearEntries(refs[from := refs[from].(addr := 0)], from + 1, end);
    }
  }

  /** The shift by a positive distance of `n` entries up to the first with address 0: they arrive
      unchanged, what is passed over ends up empty, and what lies behind stays. */
  lemma {:induction false} ShiftMoves(refs: seq<Ref>, start: nat, last: nat, max: nat, n: nat)
    requires 0 < start <= last && last + n <= max <= |refs|
    requires forall i :: last <= i < last + n ==> refs[i].addr != 0
    requires last + n == max || refs[last + n].addr == 0
    requires forall i :: start <= i < last && last - start <= i ==> refs[i].addr == 0
    ensures var (refs', last') := Shift(refs, start, last, max);
            && last' == last + n && |refs'| == |refs|
            && (forall i :: 0 <= i < last - start ==> refs'[i] == refs[i])
            && (forall i :: last - start <= i < last + n - start ==> refs'[i] == refs[i + start])
            && (forall i :: start <= i < last + n && last + n - start <= i ==> refs'[i].addr == 0)
            && (forall i :: last + n <= i < |refs| ==> refs'[i] == refs[i])
    decreases n
  {
    if n > 0 {
      var moved := refs[last - start := Ref(refs[last].slot, refs[last].addr)];
      var next := moved[last := moved[last].(addr := 0)];
      ShiftMoves(next, start, last + 1, max, n - 1);
      var (refs', last') := Shift(refs, start, last, max);
      assert Shift(next, start, last + 1, max) == (refs', last');
      forall i | last - start <= i < last + n - start ensures refs'[i] == refs[i + start] {
        if i == last - start {
          assert refs'[i] == next[i];
        } else {
          assert refs'[i] == next[i + start];
        }
      }
    }
  }

  /** With no distance to go every entry before the first with address 0 is copied onto itself
      and then emptied. */
  lemma {:induction false} ShiftLoses(refs: seq<Ref>, last: nat, max: nat, n: nat)
    requires last + n <= max <= |refs|
    requires forall i :: last <= i < last + n ==> refs[i].addr != 0
    requires last + n == max || refs[last + n].addr == 0
    ensures var (refs', last') := Shift(refs, 0, last, max);
            && last' == last + n && |refs'| == |refs|
            && (forall i :: 0 <= i < last ==> refs'[i] == refs[i])
            && (forall i :: last <= i < last + n ==> refs'[i].addr == 0)
    decreases n
  {
    if n > 0 {
      var next := refs[last := Ref(refs[last].slot, refs[last].addr)][last := Ref(refs[last].slot, 0)];
      ShiftLoses(next, last + 1, max, n - 1);
      assert refs[last := Ref(refs[last].slot, refs[last].addr)] == refs;
    }
  }

  /** How many references stand before the first with address 0. */
  function Leading(partial: seq<Ref>): (n: nat)
    ensures n <= |partial| && (n < |partial| ==> partial[n].addr == 0)
    ensures forall i :: 0 <= i < n ==> partial[i].addr != 0
  {
    if partial == [] || partial[0].addr == 0 then 0 else 1 + Leading(partial[1..])
  }

  predicate AllNonZero(partial: seq<Ref>) {
    forall i :: 0 <= i < |partial| ==> partial[i].addr != 0
  }

  /** The current block's `partial` references, from `start` on, end what is recorded: behind
      them every entry is empty. */
  ghost predicate TailIs(refs: seq<Ref>, start: nat, partial: seq<Ref>) {
    && start + |partial| <= |refs| && refs[start..start + |partial|] == partial
    && forall i :: start + |partial| <= i < |refs| ==> refs[i].addr == 0
  }

  /** The record is sound: the cursor is behind the partial references, which are at the front. */
  ghost predicate Carried(refs: seq<Ref>, cursor: nat, partial: seq<Ref>) {
    cursor == |partial| && TailIs(refs, 0, partial)
  }

  /** What a caller can check: nothing was recorded yet, or the block began behind other
      references and none of its own has address 0. */
  predicate Survives(start: nat, partial: seq<Ref>) {
    partial == [] || (start > 0 && AllNonZero(partial))
  }

  lemma ShiftTail(refs: seq<Ref>, start: nat, max: nat, partial: seq<Ref>)
    requires TailIs(refs, start, partial) && start + |partial| <= max <= |refs|
    ensures var n := Leading(partial);
            && (forall i :: start <= i < start + |partial| ==> refs[i] == partial[i - start])
            && (forall i :: start <= i < start + n ==> refs[i].addr != 0)
            && (start + n == max || refs[start + n].addr == 0)
  {
    forall i | start <= i < start + |partial| ensures refs[i] == partial[i - start] {
      assert refs[i] == refs[start..start + |partial|][i - start];
    }
  }

  lemma CarryFromBehind(refs: seq<Ref>, start: nat, max: nat, partial: seq<Ref>)
    requires TailIs(refs, start, partial) && start + |partial| <= max <= |refs| && start > 0
    ensures var (refs', cursor) := Carry(refs, start, max);
            && |refs'| == |refs| && cursor == Leading(partial)
            && (cursor == |partial| ==> TailIs(refs', 0, partial))
  {
    var n := Leading(partial);
    ShiftTail(refs, start, max, partial);
    ShiftMoves(refs, start, start, max, n);
    var (shifted, last) := Shift(refs, start, start, max);
    ClearEntries(shifted, n, start);
    if n == |partial| {
      assert Carry(refs, start, max).0[0..0 + n] == partial;
    }
  }

  lemma CarryFromFront(refs: seq<Ref>, max: nat, partial: seq<Ref>)
    requires TailIs(refs, 0, partial) && |partial| <= max <= |refs|
    ensures var (refs', cursor) := Carry(refs, 0, max);
            && |refs'| == |refs| && cursor == Leading(partial)
            && (forall i :: 0 <= i < cursor ==> refs'[i].addr == 0)
            && (partial == [] ==> refs' == refs)
  {
    ShiftTail(refs, 0, max, partial);
    ShiftLoses(refs, 0, max, Leading(partial));
  }

  /** A flush moves the cursor behind the references before the first with address 0, and leaves
      the current block's references soundly at the front iff the block has recorded nothing, or
      it began behind other references and has recorded no address 0. */
  lemma CarryKeepsPartial(refs: seq<Ref>, start: nat, max: nat, partial: seq<Ref>)
    requires TailIs(refs, start, partial) && start + |partial| <= max <= |refs|
    ensures var (refs', cursor) := Carry(refs, start, max);
            && |refs'| == |refs| && cursor == Leading(partial)
            && (Carried(refs', cursor, partial) <==> Survives(start, partial))
  {
    if start > 0 {
      CarryFromBehind(refs, start, max, partial);
    } else {
      CarryFromFront(refs, max, partial);
      var (refs', cursor) := Carry(refs, 0, max);
      if cursor == |partial| > 0 {
        assert refs'[0].addr == 0 && refs'[0..0 + cursor][0] == refs'[0];
      }
    }
  }

  // ---- blocks and their references ----

  datatype BlockRefs = BlockRefs(key: nat, refs: seq<Ref>)

  function Concat(blocks: seq<BlockRefs>): seq<Ref> {
    if blocks == [] then [] else Concat(blocks[..|blocks| - 1]) + blocks[|blocks| - 1].refs
  }

  lemma ConcatSnoc(blocks: seq<BlockRefs>, b: BlockRefs)
    ensures Concat(blocks + [b]) == Concat(blocks) + b.refs
  {
    assert (blocks + [b])[..|blocks|] == blocks;
  }

  /** The references of block `i` lie behind those of the blocks before it. */
  lemma {:induction false} ConcatSlice(blocks: seq<BlockRefs>, i: nat)
    requires i < |blocks|
    ensures var start := |Concat(blocks[..i])|;
            && start + |blocks[i].refs| <= |Concat(blocks)|
            && Concat(blocks)[start..start + |blocks[i].refs|] == blocks[i].refs
  {
    var last := |blocks| - 1;
    if i < last {
      ConcatSlice(blocks[..last], i);
      assert blocks[..last][..i] == blocks[..i];
    }
  }

  /** All of the block's references are there; `memRefs` says how many a key has. */
  ghost predicate Complete(memRefs: seq<nat>, b: BlockRefs) {
    b.key < |memRefs| && |b.refs| == memRefs[b.key]
  }

  ghost predicate InProgress(memRefs: seq<nat>, b: BlockRefs) {
    b.key < |memRefs| && |b.refs| <= memRefs[b.key]
  }

  /** Blocks whose end has not been called back: the last is the current one, those before it
      are complete. */
  ghost predicate OpenBlocks(memRefs: seq<nat>, open: seq<BlockRefs>) {
    && open != [] && InProgress(memRefs, open[|open| - 1])
    && forall i :: 0 <= i < |open| - 1 ==> Complete(memRefs, open[i])
  }

  lemma OpenBlockEnters(memRefs: seq<nat>, open: seq<BlockRefs>, key: nat)
    requires OpenBlocks(memRefs, open) && Complete(memRefs, open[|open| - 1]) && key < |memRefs|
    ensures OpenBlocks(memRefs, open + [BlockRefs(key, [])])
    ensures Concat(open + [BlockRefs(key, [])]) == Concat(open)
  {
    var open' := open + [BlockRefs(key, [])];
    ConcatSnoc(open, BlockRefs(key, []));
    forall i | 0 <= i < |open'| - 1 ensures Complete(memRefs, open'[i]) {
      assert open'[i] == open[i];
    }
  }

  lemma OpenBlockRecords(memRefs: seq<nat>, open: seq<BlockRefs>, r: Ref)
    requires OpenBlocks(memRefs, open)
    requires |open[|open| - 1].refs| < memRefs[open[|open| - 1].key]
    ensures OpenBlocks(memRefs, Recorded(open, r)) && Concat(Recorded(open, r)) == Concat(open) + [r]
  {
    var last := |open| - 1;
    var b := BlockRefs(open[last].key, open[last].refs + [r]);
    ConcatSnoc(open[..last], b);
    forall i | 0 <= i < last ensures Complete(memRefs, Recorded(open, r)[i]) {
      assert Recorded(open, r)[i] == open[i];
    }
  }

  /** What a caller can check before a flush: no other block is open, the current one has recorded
      nothing, or those before it recorded something and it has recorded no address 0. */
  ghost predicate FlushIsSafe(open: seq<BlockRefs>)
    requires open != []
  {
    |open| == 1 || Survives(|Concat(open[..|open| - 1])|, open[|open| - 1].refs)
  }

  function Keys(blocks: seq<BlockRefs>): seq<nat> {
    seq(|blocks|, i requires 0 <= i < |blocks| => blocks[i].key)
  }

  /** One thread's record in the mode that also collects memory references. */
  class MemRefThread<S> {
    /** The number of references of each block key, and which of the two capacity tests applies. */
    const memRefs: seq<nat>
    const arm: bool
    const bbCache: array<Option<nat>>
    const refs: array<Ref>
    var ptr: nat
    var refPtr: nat
    var preKey: nat
    /** The references handed to the client, block end by block end. */
    var delivered: seq<BlockRefs>
    /** The blocks whose end has not been called back: the previous one, the pending ones, and
        last the current one with what it has recorded so far. */
    ghost var open: seq<BlockRefs>
    /** What the turns of the flush loop do beside the references, for any effect `step` of a turn:
        the state before the first turn, and now. */
    ghost const step: (S, nat) -> S
    ghost const begun: S
    ghost var tree: S

    ghost predicate Sized()
      reads this
    {
      && bbCache.Length == BB_CACHE_MAX && refs.Length == REF_CACHE_MAX
      && |memRefs| > 0 && memRefs[0] == 0 && forall k :: 0 <= k < |memRefs| ==> memRefs[k] < REF_CACHE_MAX
    }

    ghost predicate Open()
      reads this
    {
      OpenBlocks(memRefs, open) && open[0].key == preKey
    }

    /** Slot i of the block buffer holds open block i, for i from `from`; the rest is empty. */
    ghost predicate Holds(from: nat)
      requires bbCache.Length == BB_CACHE_MAX && from >= 1
      reads this, bbCache
    {
      && |open| <= BB_CACHE_MAX
      && forall i :: 0 <= i < BB_CACHE_MAX ==> bbCache[i] == if from <= i < |open| then Some(open[i].key) else None
    }

    ghost predicate Current(key: nat, recorded: nat)
      requires key < |memRefs|
      reads this
    {
      recorded <= memRefs[key] && refPtr + (memRefs[key] - recorded) < REF_CACHE_MAX
    }

    /** There has been one turn for each block before the open ones and for the first of them, the
        virtual root aside. */
    ghost predicate Tied()
      reads this
    {
      tree == Fold(step, begun, (Keys(delivered) + [preKey])[1..])
    }

    ghost predicate Valid()
      reads this, bbCache, refs
    {
      && Sized() && Open() && Holds(1) && Tied()
      && (if ptr == 0 then |open| == 1 else ptr == |open| < BB_CACHE_MAX)
      && Carried(refs[..], refPtr, Concat(open))
      && Current(open[|open| - 1].key, |open[|open| - 1].refs|)
    }

    constructor (memRefs: seq<nat>, arm: bool, ghost step: (S, nat) -> S, ghost begun: S)
      requires |memRefs| > 0 && memRefs[0] == 0 && forall k :: 0 <= k < |memRefs| ==> memRefs[k] < REF_CACHE_MAX
      ensures Valid() && this.memRefs == memRefs && this.step == step && this.begun == begun
      ensures delivered == [] && open == [BlockRefs(0, [])] && ptr == 0 && fresh(bbCache) && fresh(refs)
    {
      this.memRefs, this.arm, this.step, this.begun, tree := memRefs, arm, step, begun, begun;
      bbCache := new Option<nat>[BB_CACHE_MAX](_ => None);
      refs := new Ref[REF_CACHE_MAX](_ => Ref(0, 0));
      ptr, refPtr, preKey, delivered := 0, 0, 0, [];
      open := [BlockRefs(0, [])];
      new;
      assert (Keys([]) + [0])[1..] == [];
      assert Concat(open) == [];
    }

    /** One recorded reference of the current block, whatever its address. */
    method RecordRef(r: Ref)
      requires Valid() && |open[|open| - 1].refs| < memRefs[open[|open| - 1].key]
      modifies this`refPtr, this`open, refs
      ensures Valid() && open == Recorded(old(open), r)
    {
      OpenBlockRecords(memRefs, open, r);
      TailGrows(refs[..], Concat(open), r);
      ghost var before := refs[..];
      refs[refPtr] := r;
      assert refs[..] == before[refPtr := r];
      refPtr := refPtr + 1;
      open := Recorded(open, r);
    }

    /** One turn of the flush loop: the previous block's end with its own references, then the
        step to the next block. */
    method EndPrevious(i: nat, start: nat) returns (next: nat)
      requires Sized() && Tied() && 1 <= i < |open| && Holds(i)
      requires preKey == open[i - 1].key && Complete(memRefs, open[i - 1]) && start == |Concat(open[..i - 1])|
      requires TailIs(refs[..], 0, Concat(open))
      modifies this`preKey, this`delivered, this`tree, bbCache
      ensures Holds(i + 1) && Tied() && preKey == open[i].key && next == |Concat(open[..i])|
      ensures delivered == old(delivered) + [open[i - 1]]
    {
      SliceOfBlock(refs[..], open, i - 1);
      TurnsGrow(step, begun, delivered, open[i - 1], open[i].key);
      var slice := refs[..][start..start + memRefs[preKey]];
      delivered := delivered + [BlockRefs(preKey, slice)];
      next := start + memRefs[preKey];
      preKey := bbCache[i].value;
      tree := step(tree, preKey);
      bbCache[i] := None;
    }

    /** The flush loop. */
    method EndAll() returns (start: nat)
      requires Sized() && Tied() && Open() && Holds(1) && TailIs(refs[..], 0, Concat(open))
      modifies this`preKey, this`delivered, this`tree, bbCache
      ensures Tied() && forall i :: 0 <= i < BB_CACHE_MAX ==> bbCache[i] == None
      ensures preKey == open[|open| - 1].key && start == |Concat(open[..|open| - 1])|
      ensures delivered == old(delivered) + open[..|open| - 1]
    {
      start := 0;
      var i := 1;
      while i < BB_CACHE_MAX && bbCache[i].Some?
        modifies this`preKey, this`delivered, this`tree, bbCache
        invariant 1 <= i <= |open| && Holds(i) && Tied() && preKey == open[i - 1].key
        invariant start == |Concat(open[..i - 1])| && delivered == old(delivered) + open[..i - 1]
        decreases BB_CACHE_MAX - i
      {
        start := EndPrevious(i, start);
        assert open[..i] == open[..i - 1] + [open[i - 1]];
        i := i + 1;
      }
    }

    /** The left shift and the clearing at the end of a flush. */
    method CarryToFront(start: nat, max: nat) returns (cursor: nat)
      requires start <= max <= refs.Length
      modifies refs
      ensures (refs[..], cursor) == Carry(old(refs[..]), start, max)
    {
      ghost var before := refs[..];
      ShiftSize(before, start, start, max);
      var last := start;
      while last < max && refs[last].addr != 0
        invariant start <= last <= max
        invariant Shift(refs[..], start, last, max) == Shift(before, start, start, max)
        decreases max - last
      {
        ghost var entry := refs[..];
        refs[last - start] := Ref(refs[last].slot, refs[last].addr);
        refs[last] := refs[last].(addr := 0);
        ghost var moved := entry[last - start := Ref(entry[last].slot, entry[last].addr)];
        assert refs[..] == moved[last := moved[last].(addr := 0)];
        last := last + 1;
      }
      assert Shift(before, start, start, max) == (refs[..], last);
      cursor := last - start;
      ghost var shifted := refs[..];
      var index := cursor;
      while index < start
        invariant cursor <= index
        invariant Clear(refs[..], index, start) == Clear(shifted, cursor, start)
        decreases start - index
      {
        ghost var entry := refs[..];
        refs[index] := refs[index].(addr := 0);
        assert refs[..] == entry[index := entry[index].(addr := 0)];
        index := index + 1;
      }
    }

    /** Where the shift ends at the latest. */
    function LastIndex(key: nat, start: nat): nat
      requires key < |memRefs|
    {
      var end := start + memRefs[key];
      if REF_CACHE_MAX >= end then end else REF_CACHE_MAX
    }

    /** The end of a flush: the current block's references, from `start` on, go to the front. */
    method CarryCurrent(start: nat, ghost b: BlockRefs)
      requires Sized() && InProgress(memRefs, b) && b.key == preKey && TailIs(refs[..], start, b.refs)
      modifies this`refPtr, refs
      ensures start <= LastIndex(b.key, start) <= REF_CACHE_MAX
      ensures (refs[..], refPtr) == Carry(old(refs[..]), start, LastIndex(b.key, start))
      ensures Carried(refs[..], refPtr, b.refs) <==> Survives(start, b.refs)
    {
      var max := LastIndex(preKey, start);
      CarryKeepsPartial(refs[..], start, max, b.refs);
      refPtr := CarryToFront(start, max);
    }

    /** What a flush does to the reference entries and the cursor. */
    ghost predicate IsCarried(before: seq<Ref>, blocks: seq<BlockRefs>)
      reads this, refs
    {
      blocks != [] &&
      var b, start := blocks[|blocks| - 1], |Concat(blocks[..|blocks| - 1])|;
      && b.key < |memRefs| && start <= LastIndex(b.key, start) <= |before|
      && (refs[..], refPtr) == Carry(before, start, LastIndex(b.key, start))
    }

    /** A flush with at least one block pending. */
    method FlushPending()
      requires Sized() && Tied() && Open() && Holds(1) && TailIs(refs[..], 0, Concat(open)) && |open| > 1
      modifies this, bbCache, refs
      ensures delivered == old(delivered) + old(open)[..|old(open)| - 1]
      ensures open == [old(open)[|old(open)| - 1]] && preKey == open[0].key && Holds(1) && Tied() && ptr == 1
      ensures IsCarried(old(refs[..]), old(open)) && (Carried(refs[..], refPtr, open[0].refs) <==> FlushIsSafe(old(open)))
    {
      ghost var b := open[|open| - 1];
      OpenTail(refs[..], open, b);
      var start := EndAll();
      CarryCurrent(start, b);
      ptr, open := 1, [b];
    }

    /** The flush itself, at a block entry or in the middle of a block. */
    method Flush()
      requires Sized() && Tied() && Open() && Holds(1) && Carried(refs[..], refPtr, Concat(open))
      modifies this, bbCache, refs
      ensures delivered == old(delivered) + old(open)[..|old(open)| - 1]
      ensures open == [old(open)[|old(open)| - 1]] && Open() && Holds(1) && Tied()
      ensures if |old(open)| == 1 then unchanged(this) && unchanged(refs) else ptr == 1 && IsCarried(old(refs[..]), old(open))
      ensures Carried(refs[..], refPtr, open[0].refs) <==> FlushIsSafe(old(open))
    {
      CurrentShare(open);
      if bbCache[1] == None {
        return;
      }
      FlushPending();
    }

    /** All blocks so far with what they recorded: called back, or still open. */
    ghost function History(): seq<BlockRefs>
      reads this
    {
      delivered + open
    }

    /** `per_thread_refresh_bb_cache_and_mem_ref_cache`, on demand, also in the middle of a block:
        every block that ended is called back with exactly its own references, in order, and the
        current block's own survive iff the flush was safe. */
    method Refresh()
      requires Valid()
      modifies this, bbCache, refs
      ensures History() == old(History()) && open == [old(open)[|old(open)| - 1]]
      ensures Valid() <==> FlushIsSafe(old(open))
      ensures |old(open)| > 1 ==> IsCarried(old(refs[..]), old(open))
    {
      CurrentShare(open);
      Flush();
      CurrentShare(open);
    }

    /** Stores the entered block in slot `ptr`; the flush of the very first block moves it from
        slot 0 to slot 1. */
    method StoreKey(key: nat, ghost blocks: seq<BlockRefs>)
      requires bbCache.Length == BB_CACHE_MAX && Holds(1) && 1 <= |open| < BB_CACHE_MAX
      requires if ptr == 0 then |open| == 1 else ptr == |open|
      requires blocks == open + [BlockRefs(key, [])]
      modifies bbCache
      ensures forall i :: 0 <= i < BB_CACHE_MAX ==> bbCache[i] == if 1 <= i < |blocks| then Some(blocks[i].key) else None
    {
      bbCache[ptr] := Some(key);
      if ptr == 0 {
        bbCache[1] := bbCache[0];
        bbCache[0] := None;
      }
    }

    method NoteBlock(key: nat)
      requires Valid() && key < |memRefs| && Complete(memRefs, open[|open| - 1])
      modifies this`open, bbCache
      ensures open == old(open) + [BlockRefs(key, [])] && Concat(open) == Concat(old(open))
      ensures Holds(1) && Open() && FlushIsSafe(open)
    {
      ghost var blocks := open + [BlockRefs(key, [])];
      OpenBlockEnters(memRefs, open, key);
      StoreKey(key, blocks);
      open := blocks;
    }

    /** A flush when the current block has just been entered: it leaves an empty buffer. */
    method FlushAtEntry()
      requires Sized() && Tied() && Open() && Holds(1) && TailIs(refs[..], 0, Concat(open)) && |open| > 1
      requires open[|open| - 1].refs == []
      modifies this, bbCache, refs
      ensures Valid() && delivered == old(delivered) + old(open)[..|old(open)| - 1]
      ensures open == [old(open)[|old(open)| - 1]] && ptr == 1
    {
      FlushPending();
      CurrentShare(open);
    }

    /** The capacity test of the inserted code, as it reads on the two architectures. */
    predicate NoRoom(num: nat)
      reads this`refPtr
    {
      if arm then refPtr + 1 + num > REF_CACHE_MAX else refPtr + 1 + num >= REF_CACHE_MAX
    }

    /** The code inserted before every block, entered when the block before it is complete. A
        flush here is always safe, and the buffer always has room for the block's references. */
    method BlockEntry(key: nat)
      requires Valid() && key < |memRefs| && Complete(memRefs, open[|open| - 1])
      modifies this, bbCache, refs
      ensures Valid() && History() == old(History()) + [BlockRefs(key, [])]
      ensures var flushes := old(ptr == 0 || ptr + 1 == 256 || refPtr + memRefs[key] >= if arm then 4096 else 4095);
              open == (if flushes then [] else old(open)) + [BlockRefs(key, [])] && ptr == |open|
    {
      NoteBlock(key);
      var index := ptr + 1;
      if index == 1 || index == BB_CACHE_MAX || NoRoom(memRefs[key]) {
        FlushAtEntry();
      } else {
        ptr := ptr + 1;
      }
    }

    /** Thread end: after a last flush the last block is called back without its references. */
    method ThreadEnd()
      requires Valid()
      modifies this, bbCache, refs
      ensures delivered == old(History())[..|old(History())| - 1] + [BlockRefs(old(open)[|old(open)| - 1].key, [])]
      ensures tree == Fold(step, begun, Keys(old(History()))[1..])
    {
      Flush();
      assert Keys(delivered) + [preKey] == Keys(old(History()));
      delivered := delivered + [BlockRefs(preKey, [])];
    }
  }

  // ---- the open blocks and the filled part of the buffer ----

  lemma TurnsGrow<S>(step: (S, nat) -> S, begun: S, delivered: seq<BlockRefs>, b: BlockRefs, key: nat)
    ensures Fold(step, begun, (Keys(delivered + [b]) + [key])[1..])
            == step(Fold(step, begun, (Keys(delivered) + [b.key])[1..]), key)
  {
    assert Keys(delivered + [b]) == Keys(delivered) + [b.key];
    FoldSnoc(step, begun, (Keys(delivered) + [b.key])[1..], key);
    assert (Keys(delivered + [b]) + [key])[1..] == (Keys(delivered) + [b.key])[1..] + [key];
  }

  ghost function Recorded(open: seq<BlockRefs>, r: Ref): seq<BlockRefs>
    requires open != []
  {
    var last := |open| - 1;
    open[..last] + [BlockRefs(open[last].key, open[last].refs + [r])]
  }

  /** The current block's references are part of the filled entries, and all of them when no
      other block is open. */
  lemma CurrentShare(open: seq<BlockRefs>)
    requires open != []
    ensures |open[|open| - 1].refs| <= |Concat(open)|
    ensures |open| == 1 ==> Concat(open) == open[0].refs
  {
  }

  lemma TailGrows(refs: seq<Ref>, filled: seq<Ref>, r: Ref)
    requires TailIs(refs, 0, filled) && |filled| < |refs|
    ensures TailIs(refs[|filled| := r], 0, filled + [r])
  {
    assert refs[|filled| := r][0..0 + |filled| + 1] == refs[0..0 + |filled|] + [r];
  }

  lemma SliceOfBlock(refs: seq<Ref>, open: seq<BlockRefs>, i: nat)
    requires TailIs(refs, 0, Concat(open)) && i < |open|
    ensures var start := |Concat(open[..i])|;
            && start + |open[i].refs| <= |refs| && refs[start..start + |open[i].refs|] == open[i].refs
            && |Concat(open[..i + 1])| == start + |open[i].refs|
  {
    ConcatSlice(open, i);
    var start, n := |Concat(open[..i])|, |open[i].refs|;
    assert refs[start..start + n] == refs[0..0 + |Concat(open)|][start..start + n];
    assert open[..i + 1] == open[..i] + [open[i]];
    ConcatSnoc(open[..i], open[i]);
  }

  /** The current block's references are the tail of the filled part. */
  lemma OpenTail(refs: seq<Ref>, open: seq<BlockRefs>, b: BlockRefs)
    requires open != [] && TailIs(refs, 0, Concat(open)) && b == open[|open| - 1]
    ensures TailIs(refs, |Concat(open[..|open| - 1])|, b.refs)
  {
    SliceOfBlock(refs, open, |open| - 1);
    assert open[..|open| - 1 + 1] == open;
  }

  // ---- two flushes in the middle of a block that lose references ----

  lemma CarryLosesFirstRef(refs: seq<Ref>, r: Ref)
    requires TailIs(refs, 0, [r]) && r.addr != 0
    ensures Carry(refs, 0, 1) == (refs[0 := r.(addr := 0)], 1)
  {
    assert refs[0] == refs[0..0 + 1][0] == r;
    assert refs[0 := Ref(r.slot, r.addr)][0 := r.(addr := 0)] == refs[0 := r.(addr := 0)];
    assert Shift(refs, 0, 0, 1) == Shift(refs[0 := r.(addr := 0)], 0, 1, 1);
  }

  lemma CarryStopsAtZero(refs: seq<Ref>, zero: Ref, r: Ref)
    requires TailIs(refs, 1, [zero, r]) && zero.addr == 0
    ensures Carry(refs, 1, 3) == (refs[0 := refs[0].(addr := 0)], 0)
  {
    assert refs[1] == refs[1..1 + 2][0] == zero;
    assert Shift(refs, 1, 1, 3) == (refs, 1);
    assert Clear(refs, 0, 1) == Clear(refs[0 := refs[0].(addr := 0)], 1, 1);
  }

  /** The reference of a block that follows only blocks without references is emptied. */
  method LoseFirstRef() returns (t: MemRefThread<int>)
    ensures fresh(t) && t.open == [BlockRefs(2, [Ref(3, 7)])] && !t.Valid()
    ensures t.refs.Length > 0 && t.refPtr == 1 && t.refs[0] == Ref(3, 0)
  {
    t := new MemRefThread<int>([0, 0, 1], false, (s: int, key: nat) => s, 0);
    t.BlockEntry(1);
    assert Concat(t.open) == [];
    t.BlockEntry(2);
    assert Concat(t.open[..1]) == [] && Concat(t.open) == [];
    t.RecordRef(Ref(3, 7));
    assert t.open[..1] == [BlockRefs(1, [])] && Concat(t.open[..1]) == [];
    assert Concat(t.open) == [Ref(3, 7)];
    ghost var before := t.refs[..];
    CarryLosesFirstRef(before, Ref(3, 7));
    t.Refresh();
  }

  /** One block with a reference, and the next just entered. */
  method TwoBlocks() returns (t: MemRefThread<int>)
    ensures fresh(t) && fresh(t.refs) && fresh(t.bbCache) && t.Valid() && t.memRefs == [0, 1, 2]
    ensures t.open == [BlockRefs(1, [Ref(0, 5)]), BlockRefs(2, [])]
  {
    t := new MemRefThread<int>([0, 1, 2], false, (s: int, key: nat) => s, 0);
    t.BlockEntry(1);
    assert Concat(t.open) == [];
    t.RecordRef(Ref(0, 5));
    assert t.open == [BlockRefs(1, [Ref(0, 5)])] && Concat(t.open) == [Ref(0, 5)];
    t.BlockEntry(2);
  }

  lemma RecordedSecond(first: BlockRefs, key: nat, refs: seq<Ref>, r: Ref)
    ensures Recorded([first, BlockRefs(key, refs)], r) == [first, BlockRefs(key, refs + [r])]
  {
    assert [first, BlockRefs(key, refs)][..1] == [first];
  }

  method TwoMoreRefs(t: MemRefThread<int>)
    requires t.Valid() && t.memRefs == [0, 1, 2] && t.open == [BlockRefs(1, [Ref(0, 5)]), BlockRefs(2, [])]
    modifies t, t.refs
    ensures t.Valid() && t.open == [BlockRefs(1, [Ref(0, 5)]), BlockRefs(2, [Ref(0, 0), Ref(1, 8)])]
  {
    ghost var first := BlockRefs(1, [Ref(0, 5)]);
    RecordedSecond(first, 2, [], Ref(0, 0));
    t.RecordRef(Ref(0, 0));
    assert [] + [Ref(0, 0)] == [Ref(0, 0)];
    assert t.open[1] == BlockRefs(2, [Ref(0, 0)]);
    RecordedSecond(first, 2, [Ref(0, 0)], Ref(1, 8));
    t.RecordRef(Ref(1, 8));
    assert [Ref(0, 0)] + [Ref(1, 8)] == [Ref(0, 0), Ref(1, 8)];
    assert t.open == [first, BlockRefs(2, [Ref(0, 0), Ref(1, 8)])];
  }

  lemma ZeroStops(refs: seq<Ref>, open: seq<BlockRefs>)
    requires open == [BlockRefs(1, [Ref(0, 5)]), BlockRefs(2, [Ref(0, 0), Ref(1, 8)])] && TailIs(refs, 0, Concat(open))
    ensures Concat(open[..1]) == [Ref(0, 5)] && !FlushIsSafe(open)
    ensures |refs| > 2 && refs[2] == Ref(1, 8) && Carry(refs, 1, 3) == (refs[0 := refs[0].(addr := 0)], 0)
  {
    assert open[..1] == [BlockRefs(1, [Ref(0, 5)])] && open[1].refs == [Ref(0, 0), Ref(1, 8)];
    assert Concat(open[..1]) == [Ref(0, 5)];
    OpenTail(refs, open, open[1]);
    assert refs[2] == refs[1..1 + 2][1];
    assert open[1].refs[0].addr == 0;
    CarryStopsAtZero(refs, Ref(0, 0), Ref(1, 8));
  }

  /** References behind one with address 0 stay where they are and the cursor goes in front of them. */
  method LoseAfterZero() returns (t: MemRefThread<int>)
    ensures fresh(t) && t.open == [BlockRefs(2, [Ref(0, 0), Ref(1, 8)])] && !t.Valid()
    ensures t.refs.Length > 2 && t.refPtr == 0 && t.refs[0].addr == 0 && t.refs[2] == Ref(1, 8)
  {
    t := TwoBlocks();
    TwoMoreRefs(t);
    ghost var before := t.refs[..];
    ZeroStops(before, t.open);
    t.Refresh();
    assert t.refs[..] == before[0 := before[0].(addr := 0)];
    assert t.refs[0] == t.refs[..][0] && t.refs[2] == t.refs[..][2];
  }
}
