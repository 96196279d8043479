/** The two-level page directory shared by all threads: pages appear by compare-and-swap, and
    whoever loses the race frees its own allocation. Every step below is atomic. */
module ShadowPages {
  import opened Options

  /** Where a call for first-level slot `i` and second-level slot `j` is. Allocations are
      numbered; `t` is a page table and `p` a page. */
  datatype Pc =
    | Idle
    | LoadTable(i: nat, j: nat)
    | AllocTable(i: nat, j: nat)
    | SwapTable(i: nat, j: nat, mine: nat)
    | FreeTable(i: nat, j: nat, mine: nat)
    | ReloadTable(i: nat, j: nat)
    | LoadPage(i: nat, j: nat, t: nat)
    | AllocPage(i: nat, j: nat, t: nat)
    | SwapPage(i: nat, j: nat, t: nat, mine: nat)
    | FreePage(i: nat, j: nat, t: nat, mine: nat)
    | ReloadPage(i: nat, j: nat, t: nat)
    | Return(i: nat, j: nat, p: nat)

  /** Where an allocation is. */
  datatype Place = TableAt(i: nat) | PageAt(t: nat, j: nat) | HeldBy(thread: nat) | Freed

  /** `place` has one entry per allocation made so far; the other fields are the directory, the
      threads, and the frees in order. */
  datatype Memory = Memory(tables: map<nat, nat>, pages: map<(nat, nat), nat>, threads: seq<Pc>,
                           place: seq<Place>, frees: seq<nat>)

  datatype Event = Begin(thread: nat, i: nat, j: nat) | Advance(thread: nat)

  function Init(threads: nat): Memory {
    Memory(map[], map[], seq(threads, _ => Idle), [], [])
  }

  function Go(m: Memory, k: nat, pc: Pc): Memory
    requires k < |m.threads|
  {
    m.(threads := m.threads[k := pc])
  }

  function Free(m: Memory, a: nat): Memory
    requires a < |m.place|
  {
    m.(place := m.place[a := Freed], frees := m.frees + [a])
  }

  /** The next atomic action of thread `k`. */
  function Act(m: Memory, k: nat): Memory
    requires k < |m.threads|
    requires m.threads[k].FreeTable? || m.threads[k].FreePage? || m.threads[k].SwapTable? || m.threads[k].SwapPage?
             ==> m.threads[k].mine < |m.place|
    requires m.threads[k].ReloadTable? ==> m.threads[k].i in m.tables
    requires m.threads[k].ReloadPage? ==> (m.threads[k].t, m.threads[k].j) in m.pages
  {
    match m.threads[k]
    case Idle => m
    case LoadTable(i, j) =>
      if i in m.tables then Go(m, k, LoadPage(i, j, m.tables[i])) else Go(m, k, AllocTable(i, j))
    case AllocTable(i, j) =>
      Go(m, k, SwapTable(i, j, |m.place|)).(place := m.place + [HeldBy(k)])
    case SwapTable(i, j, mine) =>
      if i in m.tables then Go(m, k, FreeTable(i, j, mine))
      else Go(m, k, LoadPage(i, j, mine)).(tables := m.tables[i := mine], place := m.place[mine := TableAt(i)])
    case FreeTable(i, j, mine) => Free(Go(m, k, ReloadTable(i, j)), mine)
    case ReloadTable(i, j) => Go(m, k, LoadPage(i, j, m.tables[i]))
    case LoadPage(i, j, t) =>
      if (t, j) in m.pages then Go(m, k, Return(i, j, m.pages[(t, j)])) else Go(m, k, AllocPage(i, j, t))
    case AllocPage(i, j, t) =>
      Go(m, k, SwapPage(i, j, t, |m.place|)).(place := m.place + [HeldBy(k)])
    case SwapPage(i, j, t, mine) =>
      if (t, j) in m.pages then Go(m, k, FreePage(i, j, t, mine))
      else Go(m, k, Return(i, j, mine)).(pages := m.pages[(t, j) := mine], place := m.place[mine := PageAt(t, j)])
    case FreePage(i, j, t, mine) => Free(Go(m, k, ReloadPage(i, j, t)), mine)
    case ReloadPage(i, j, t) => Go(m, k, Return(i, j, m.pages[(t, j)]))
    case Return(_, _, _) => Go(m, k, Idle)
  }

  predicate Holding(pc: Pc) {
    pc.SwapTable? || pc.FreeTable? || pc.SwapPage? || pc.FreePage?
  }

  /** The directory, the threads and the frees agree with the place of every allocation. Each
      allocation has one place, so this says that it is in exactly one of them. */
  ghost predicate Placed(m: Memory) {
    && (forall i :: i in m.tables ==> m.tables[i] < |m.place| && m.place[m.tables[i]] == TableAt(i))
    && (forall s :: s in m.pages ==> m.pages[s] < |m.place| && m.place[m.pages[s]] == PageAt(s.0, s.1))
    && (forall k :: 0 <= k < |m.threads| && Holding(m.threads[k]) ==>
          m.threads[k].mine < |m.place| && m.place[m.threads[k].mine] == HeldBy(k))
    && (forall n :: 0 <= n < |m.frees| ==> m.frees[n] < |m.place| && m.place[m.frees[n]] == Freed)
    && (forall n, l :: 0 <= n < l < |m.frees| ==> m.frees[n] != m.frees[l])
  }

  ghost predicate Occupied(m: Memory, a: nat)
    requires a < |m.place|
  {
    match m.place[a]
    case TableAt(i) => i in m.tables && m.tables[i] == a
    case PageAt(t, j) => (t, j) in m.pages && m.pages[(t, j)] == a
    case HeldBy(k) => k < |m.threads| && Holding(m.threads[k]) && m.threads[k].mine == a
    case Freed => a in m.frees
  }

  /** Every table under which pages hang is the published one of some slot. */
  ghost predicate TableOf(m: Memory, i: nat, t: nat) {
    i in m.tables && m.tables[i] == t
  }

  ghost predicate Consistent(m: Memory, pc: Pc) {
    match pc
    case ReloadTable(i, _) => i in m.tables
    case FreeTable(i, _, _) => i in m.tables
    case LoadPage(i, _, t) => TableOf(m, i, t)
    case AllocPage(i, _, t) => TableOf(m, i, t)
    case SwapPage(i, _, t, _) => TableOf(m, i, t)
    case FreePage(i, j, t, _) => TableOf(m, i, t) && (t, j) in m.pages
    case ReloadPage(i, j, t) => TableOf(m, i, t) && (t, j) in m.pages
    case Return(i, j, p) => Lookup(m, i, j) == Some(p)
    case _ => true
  }

  /** `GetShadowBaseAddress` */
  function Lookup(m: Memory, i: nat, j: nat): Option<nat> {
    if i !in m.tables then None
    else if (m.tables[i], j) !in m.pages then None
    else Some(m.pages[(m.tables[i], j)])
  }

  ghost predicate Inv(m: Memory) {
    && Placed(m)
    && (forall a :: 0 <= a < |m.place| ==> Occupied(m, a))
    && (forall k :: 0 <= k < |m.threads| ==> Consistent(m, m.threads[k]))
    && (forall s :: s in m.pages ==> exists i :: TableOf(m, i, s.0))
  }

  /** Nothing that was published is ever replaced or removed. */
  ghost predicate Grows(m: Memory, m': Memory) {
    && (forall i :: i in m.tables ==> i in m'.tables && m'.tables[i] == m.tables[i])
    && (forall s :: s in m.pages ==> s in m'.pages && m'.pages[s] == m.pages[s])
  }

  lemma LookupPersists(m: Memory, m': Memory, i: nat, j: nat)
    requires Grows(m, m') && Lookup(m, i, j).Some?
    ensures Lookup(m', i, j) == Lookup(m, i, j)
  {
  }

  lemma OthersConsistent(m: Memory, m': Memory, pc: Pc)
    requires Grows(m, m') && Consistent(m, pc)
    ensures Consistent(m', pc)
  {
  }

  ghost predicate CanAct(m: Memory, k: nat) {
    && k < |m.threads|
    && (Holding(m.threads[k]) ==> m.threads[k].mine < |m.place|)
    && (m.threads[k].ReloadTable? ==> m.threads[k].i in m.tables)
    && (m.threads[k].ReloadPage? ==> (m.threads[k].t, m.threads[k].j) in m.pages)
  }

  lemma OccupiedElsewhere(m: Memory, m': Memory, k: nat, a: nat)
    requires a < |m.place| <= |m'.place| && m'.place[a] == m.place[a] && Occupied(m, a) && Grows(m, m')
    requires k < |m.threads| == |m'.threads| && m'.threads == m.threads[k := m'.threads[k]]
    requires Holding(m.threads[k]) && m.threads[k].mine == a ==> Holding(m'.threads[k]) && m'.threads[k].mine == a
    requires m.frees <= m'.frees
    ensures Occupied(m', a)
  {
    if m.place[a] == Freed {
      var n :| 0 <= n < |m.frees| && m.frees[n] == a;
      assert m'.frees[n] == a;
    }
  }

  lemma ConsistentAll(m: Memory, m': Memory, k: nat)
    requires Inv(m) && Grows(m, m') && k < |m.threads| == |m'.threads|
    requires m'.threads == m.threads[k := m'.threads[k]] && Consistent(m', m'.threads[k])
    ensures forall l :: 0 <= l < |m'.threads| ==> Consistent(m', m'.threads[l])
  {
    forall l | 0 <= l < |m'.threads| ensures Consistent(m', m'.threads[l]) {
      if l != k {
        OthersConsistent(m, m', m.threads[l]);
      }
    }
  }

  /** A load, a return, or a lost race: the same allocation, if any, stays held. */
  lemma GoKeeps(m: Memory, k: nat, pc: Pc)
    requires Inv(m) && k < |m.threads| && Consistent(m, pc)
    requires Holding(pc) <==> Holding(m.threads[k])
    requires Holding(pc) ==> pc.mine == m.threads[k].mine
    ensures Inv(Go(m, k, pc)) && Grows(m, Go(m, k, pc))
  {
    var m' := Go(m, k, pc);
    ConsistentAll(m, m', k);
    forall a | 0 <= a < |m'.place| ensures Occupied(m', a) {
      OccupiedElsewhere(m, m', k, a);
    }
    forall s | s in m'.pages ensures exists i :: TableOf(m', i, s.0) {
      var i :| TableOf(m, i, s.0);
      assert TableOf(m', i, s.0);
    }
  }

  lemma AllocKeeps(m: Memory, k: nat, pc: Pc)
    requires Inv(m) && k < |m.threads| && !Holding(m.threads[k])
    requires Holding(pc) && pc.mine == |m.place| && Consistent(m, pc)
    ensures var m' := Go(m, k, pc).(place := m.place + [HeldBy(k)]); Inv(m') && Grows(m, m')
  {
    var m' := Go(m, k, pc).(place := m.place + [HeldBy(k)]);
    assert Consistent(m', pc) by { OthersConsistent(m, m', pc); }
    ConsistentAll(m, m', k);
    forall a | 0 <= a < |m'.place| ensures Occupied(m', a) {
      if a < |m.place| {
        OccupiedElsewhere(m, m', k, a);
      }
    }
    forall s | s in m'.pages ensures exists i :: TableOf(m', i, s.0) {
      var i :| TableOf(m, i, s.0);
      assert TableOf(m', i, s.0);
    }
  }

  lemma FreeKeeps(m: Memory, k: nat, pc: Pc)
    requires Inv(m) && k < |m.threads| && Holding(m.threads[k]) && !Holding(pc) && Consistent(m, pc)
    ensures m.threads[k].mine < |m.place|
    ensures var m' := Free(Go(m, k, pc), m.threads[k].mine); Inv(m') && Grows(m, m')
  {
    var mine := m.threads[k].mine;
    assert Occupied(m, mine);
    var m' := Free(Go(m, k, pc), mine);
    OthersConsistent(m, m', pc);
    ConsistentAll(m, m', k);
    assert m'.frees[|m.frees|] == mine;
    forall a | 0 <= a < |m'.place| ensures Occupied(m', a) {
      if a != mine {
        OccupiedElsewhere(m, m', k, a);
      }
    }
    forall s | s in m'.pages ensures exists i :: TableOf(m', i, s.0) {
      var i :| TableOf(m, i, s.0);
      assert TableOf(m', i, s.0);
    }
  }

  lemma PublishTableKeeps(m: Memory, k: nat)
    requires Inv(m) && k < |m.threads| && m.threads[k].SwapTable? && m.threads[k].i !in m.tables
    ensures m.threads[k].mine < |m.place| && Inv(Act(m, k)) && Grows(m, Act(m, k))
  {
    var i, mine := m.threads[k].i, m.threads[k].mine;
    assert Occupied(m, mine);
    var m' := Act(m, k);
    assert TableOf(m', i, mine);
    ConsistentAll(m, m', k);
    forall a | 0 <= a < |m'.place| ensures Occupied(m', a) {
      if a != mine {
        OccupiedElsewhere(m, m', k, a);
      }
    }
    forall s | s in m'.pages ensures exists i :: TableOf(m', i, s.0) {
      var i :| TableOf(m, i, s.0);
      assert TableOf(m', i, s.0);
    }
  }

  lemma PublishPageKeeps(m: Memory, k: nat)
    requires Inv(m) && k < |m.threads| && m.threads[k].SwapPage? && (m.threads[k].t, m.threads[k].j) !in m.pages
    ensures m.threads[k].mine < |m.place| && Inv(Act(m, k)) && Grows(m, Act(m, k))
  {
    var i, j, t, mine := m.threads[k].i, m.threads[k].j, m.threads[k].t, m.threads[k].mine;
    assert Occupied(m, mine) && Consistent(m, m.threads[k]);
    var m' := Act(m, k);
    ConsistentAll(m, m', k);
    forall a | 0 <= a < |m'.place| ensures Occupied(m', a) {
      if a != mine {
        OccupiedElsewhere(m, m', k, a);
      }
    }
    forall s | s in m'.pages ensures exists i :: TableOf(m', i, s.0) {
      if s == (t, j) {
        assert TableOf(m', i, t);
      } else {
        var i :| TableOf(m, i, s.0);
        assert TableOf(m', i, s.0);
      }
    }
  }

  /** Every atomic action keeps the directory consistent and only adds to it. */
  lemma ActKeeps(m: Memory, k: nat)
    requires Inv(m) && k < |m.threads|
    ensures CanAct(m, k) && Inv(Act(m, k)) && Grows(m, Act(m, k))
  {
    assert Consistent(m, m.threads[k]);
    match m.threads[k]
    case Idle =>
    case LoadTable(i, j) => GoKeeps(m, k, if i in m.tables then LoadPage(i, j, m.tables[i]) else AllocTable(i, j));
    case AllocTable(i, j) => AllocKeeps(m, k, SwapTable(i, j, |m.place|));
    case SwapTable(i, j, mine) =>
      if i in m.tables { GoKeeps(m, k, FreeTable(i, j, mine)); } else { PublishTableKeeps(m, k); }
    case FreeTable(i, j, mine) => FreeKeeps(m, k, ReloadTable(i, j));
    case ReloadTable(i, j) => GoKeeps(m, k, LoadPage(i, j, m.tables[i]));
    case LoadPage(i, j, t) =>
      GoKeeps(m, k, if (t, j) in m.pages then Return(i, j, m.pages[(t, j)]) else AllocPage(i, j, t));
    case AllocPage(i, j, t) => AllocKeeps(m, k, SwapPage(i, j, t, |m.place|));
    case SwapPage(i, j, t, mine) =>
      if (t, j) in m.pages { GoKeeps(m, k, FreePage(i, j, t, mine)); } else { PublishPageKeeps(m, k); }
    case FreePage(i, j, t, mine) => FreeKeeps(m, k, ReloadPage(i, j, t));
    case ReloadPage(i, j, t) => GoKeeps(m, k, Return(i, j, m.pages[(t, j)]));
    case Return(_, _, _) => GoKeeps(m, k, Idle);
  }

  // ---- runs ----

  ghost function Step(m: Memory, e: Event): Memory
    requires Inv(m)
  {
    if e.thread >= |m.threads| then m else
    match e
    case Begin(k, i, j) => if m.threads[k].Idle? then Go(m, k, LoadTable(i, j)) else m
    case Advance(k) => ActKeeps(m, k); Act(m, k)
  }

  lemma StepKeeps(m: Memory, e: Event)
    requires Inv(m)
    ensures Inv(Step(m, e)) && Grows(m, Step(m, e))
  {
    if e.thread < |m.threads| {
      if e.Advance? {
        ActKeeps(m, e.thread);
      } else if m.threads[e.thread].Idle? {
        GoKeeps(m, e.thread, LoadTable(e.i, e.j));
      }
    }
  }

  ghost function Run(threads: nat, events: seq<Event>): (m: Memory)
    ensures Inv(m)
  {
    if events == [] then Init(threads) else
    var m := Run(threads, events[..|events| - 1]);
    StepKeeps(m, events[|events| - 1]);
    Step(m, events[|events| - 1])
  }

  lemma GrowsTrans(a: Memory, b: Memory, c: Memory)
    requires Grows(a, b) && Grows(b, c)
    ensures Grows(a, c)
  {
  }

  lemma StepGrows(threads: nat, events: seq<Event>)
    requires events != []
    ensures Grows(Run(threads, events[..|events| - 1]), Run(threads, events))
  {
    StepKeeps(Run(threads, events[..|events| - 1]), events[|events| - 1]);
  }

  lemma {:induction false} RunGrows(threads: nat, events: seq<Event>, n: nat)
    requires n <= |events|
    ensures Grows(Run(threads, events[..n]), Run(threads, events))
  {
    var last := |events| - 1;
    if n == |events| {
      assert events[..n] == events;
    } else {
      RunGrows(threads, events[..last], n);
      assert events[..last][..n] == events[..n];
      StepGrows(threads, events);
      GrowsTrans(Run(threads, events[..n]), Run(threads, events[..last]), Run(threads, events));
    }
  }

  /** A call that returns at some point of a run returns the page that every lookup of its slots
      finds from then on, so all callers of the same slots get the same page. */
  lemma CallersAgree(threads: nat, events: seq<Event>, n: nat, k: nat)
    requires n <= |events| && k < |Run(threads, events[..n]).threads|
    requires Run(threads, events[..n]).threads[k].Return?
    ensures var pc := Run(threads, events[..n]).threads[k];
            Lookup(Run(threads, events), pc.i, pc.j) == Some(pc.p)
  {
    var m := Run(threads, events[..n]);
    assert Consistent(m, m.threads[k]);
    RunGrows(threads, events, n);
    LookupPersists(m, Run(threads, events), m.threads[k].i, m.threads[k].j);
  }

  /** A call that comes upon an existing page goes straight to it: it allocates, frees and publishes
      nothing. */
  lemma FoundAtOnce(m: Memory, k: nat)
    requires Inv(m) && k < |m.threads| && (m.threads[k].LoadTable? || m.threads[k].LoadPage?)
    requires Lookup(m, m.threads[k].i, m.threads[k].j).Some?
    ensures var pc, m' := m.threads[k], Act(m, k);
            && m' == m.(threads := m'.threads)
            && (if pc.LoadTable? then m'.threads[k].LoadPage? && Calling(m'.threads[k], pc.i, pc.j)
                else m'.threads[k] == Return(pc.i, pc.j, Lookup(m, pc.i, pc.j).value))
  {
    assert Consistent(m, m.threads[k]);
  }

  // ---- every call returns ----

  /** A call for the slots is on its way, or has its page and is about to return it. */
  predicate Calling(pc: Pc, i: nat, j: nat) {
    !pc.Idle? && pc.i == i && pc.j == j
  }

  /** The most actions a call can still take before it returns. */
  function Rank(pc: Pc): nat {
    match pc
    case LoadTable(_, _) => 10
    case AllocTable(_, _) => 9
    case SwapTable(_, _, _) => 8
    case FreeTable(_, _, _) => 7
    case ReloadTable(_, _) => 6
    case LoadPage(_, _, _) => 5
    case AllocPage(_, _, _) => 4
    case SwapPage(_, _, _, _) => 3
    case FreePage(_, _, _, _) => 2
    case ReloadPage(_, _, _) => 1
    case _ => 0
  }

  /** An action brings the call nearer to its return, keeps its slots, and moves no other thread; only
      a return ends a call. */
  lemma ActProgress(m: Memory, k: nat)
    requires CanAct(m, k) && !m.threads[k].Idle?
    ensures var pc, pc' := m.threads[k], Act(m, k).threads[k];
            if pc.Return? then pc'.Idle? else Calling(pc', pc.i, pc.j) && Rank(pc') < Rank(pc)
    ensures Act(m, k).threads == m.threads[k := Act(m, k).threads[k]]
  {
  }

  function OwnActions(events: seq<Event>, k: nat): nat {
    if events == [] then 0
    else OwnActions(events[1..], k) + if events[0] == Advance(k) then 1 else 0
  }

  /** Where thread `k` is after `n` events. */
  ghost function PcAfter(threads: nat, events: seq<Event>, n: nat, k: nat): Pc
    requires n <= |events|
  {
    var m := Run(threads, events[..n]);
    if k < |m.threads| then m.threads[k] else Idle
  }

  /** What one event does to thread `k` in a call. */
  ghost predicate Proceeds(pc: Pc, e: Event, pc': Pc, k: nat) {
    !pc.Idle? && !pc.Return? ==>
      Calling(pc', pc.i, pc.j) && (if e == Advance(k) then Rank(pc') < Rank(pc) else pc' == pc)
  }

  lemma NextPc(threads: nat, events: seq<Event>, n: nat, k: nat)
    requires n < |events|
    ensures Proceeds(PcAfter(threads, events, n, k), events[n], PcAfter(threads, events, n + 1, k), k)
  {
    var m, e := Run(threads, events[..n]), events[n];
    assert events[..n + 1][..n] == events[..n];
    if e.thread < |m.threads| && e.Advance? && !m.threads[e.thread].Idle? {
      ActKeeps(m, e.thread);
      ActProgress(m, e.thread);
    }
  }

  /** A call on its way returns after at most so many actions of its own thread, whatever the others do
      in between. */
  lemma {:induction false} CallReturns(pcs: seq<Pc>, events: seq<Event>, k: nat) returns (e: nat)
    requires |pcs| == |events| + 1 && forall x :: 0 <= x < |events| ==> Proceeds(pcs[x], events[x], pcs[x + 1], k)
    requires !pcs[0].Idle? && OwnActions(events, k) >= Rank(pcs[0])
    ensures e <= |events| && OwnActions(events[..e], k) <= Rank(pcs[0])
    ensures Calling(pcs[e], pcs[0].i, pcs[0].j) && pcs[e].Return?
    ensures forall x :: 0 <= x < e ==> Calling(pcs[x], pcs[0].i, pcs[0].j) && !pcs[x].Return?
  {
    if pcs[0].Return? {
      e := 0;
    } else {
      assert Proceeds(pcs[0], events[0], pcs[1], k);
      var e' := CallReturns(pcs[1..], events[1..], k);
      e := e' + 1;
      assert events[..e][1..] == events[1..][..e'];
    }
  }

  lemma ReturnAfter(pcs: seq<Pc>, events: seq<Event>, n: nat, k: nat) returns (e: nat)
    requires |pcs| == |events| + 1 && forall x :: 0 <= x < |events| ==> Proceeds(pcs[x], events[x], pcs[x + 1], k)
    requires n <= |events| && !pcs[n].Idle? && OwnActions(events[n..], k) >= Rank(pcs[n])
    ensures n <= e <= |events| && OwnActions(events[n..e], k) <= Rank(pcs[n])
    ensures Calling(pcs[e], pcs[n].i, pcs[n].j) && pcs[e].Return?
    ensures forall x :: n <= x < e ==> Calling(pcs[x], pcs[n].i, pcs[n].j) && !pcs[x].Return?
  {
    var rest := pcs[n..];
    var d := CallReturns(rest, events[n..], k);
    e := n + d;
    assert events[n..][..d] == events[n..e];
    forall x | n <= x < e ensures Calling(pcs[x], pcs[n].i, pcs[n].j) && !pcs[x].Return? {
      assert pcs[x] == rest[x - n];
    }
  }

  /** Where thread `k` is before the first event and after each one. */
  ghost function Pcs(threads: nat, events: seq<Event>, k: nat): (pcs: seq<Pc>)
    ensures |pcs| == |events| + 1
  {
    seq(|events| + 1, n requires 0 <= n <= |events| => PcAfter(threads, events, n, k))
  }

  lemma PcsProceed(threads: nat, events: seq<Event>, k: nat)
    ensures var pcs := Pcs(threads, events, k);
            forall x :: 0 <= x < |events| ==> Proceeds(pcs[x], events[x], pcs[x + 1], k)
  {
    forall x | 0 <= x < |events|
      ensures Proceeds(Pcs(threads, events, k)[x], events[x], Pcs(threads, events, k)[x + 1], k)
    {
      NextPc(threads, events, x, k);
    }
  }

  lemma {:induction false} ThreadsStay(threads: nat, events: seq<Event>)
    ensures |Run(threads, events).threads| == threads
  {
    if events != [] {
      var front := events[..|events| - 1];
      ThreadsStay(threads, front);
      var m, e := Run(threads, front), events[|events| - 1];
      if e.thread < threads && e.Advance? && !m.threads[e.thread].Idle? {
        ActKeeps(m, e.thread);
        ActProgress(m, e.thread);
      }
    }
  }

  lemma CallBegins(threads: nat, events: seq<Event>, n: nat, k: nat, i: nat, j: nat)
    requires n < |events| && events[n] == Begin(k, i, j) && k < threads && Pcs(threads, events, k)[n].Idle?
    ensures Pcs(threads, events, k)[n + 1] == LoadTable(i, j)
  {
    assert events[..n + 1][..n] == events[..n];
    ThreadsStay(threads, events[..n]);
  }

  lemma PageReturned(threads: nat, events: seq<Event>, e: nat, k: nat)
    requires e <= |events| && Pcs(threads, events, k)[e].Return?
    ensures var pc := Pcs(threads, events, k)[e]; Lookup(Run(threads, events), pc.i, pc.j) == Some(pc.p)
  {
    CallersAgree(threads, events, e, k);
  }

  /** Every call an idle thread begins comes to its own return within ten actions, and returns the page
      that its slots have for good. */
  lemma EveryCallReturns(threads: nat, events: seq<Event>, n: nat, k: nat, i: nat, j: nat) returns (e: nat, p: nat)
    requires n < |events| && events[n] == Begin(k, i, j) && k < threads && Pcs(threads, events, k)[n].Idle?
    requires OwnActions(events[n + 1..], k) >= 10
    ensures n < e <= |events| && OwnActions(events[n + 1..e], k) <= 10
    ensures Pcs(threads, events, k)[e] == Return(i, j, p) && Lookup(Run(threads, events), i, j) == Some(p)
    ensures var pcs := Pcs(threads, events, k); forall x :: n < x < e ==> Calling(pcs[x], i, j) && !pcs[x].Return?
  {
    var pcs := Pcs(threads, events, k);
    CallBegins(threads, events, n, k, i, j);
    PcsProceed(threads, events, k);
    e := ReturnAfter(pcs, events, n + 1, k);
    p := pcs[e].p;
    PageReturned(threads, events, e, k);
  }

  /** Different slots never share a page. */
  lemma PagesAreSeparate(m: Memory, i: nat, j: nat, i': nat, j': nat)
    requires Inv(m) && Lookup(m, i, j).Some? && Lookup(m, i, j) == Lookup(m, i', j')
    ensures i == i' && j == j'
  {
    assert m.place[m.tables[i]] == TableAt(i) && m.place[m.tables[i']] == TableAt(i');
  }

  // ---- the destructor ----

  /** The destructor has met allocation `a` once it is done with the slots before `i`, and with
      the entries before `j` of the table in slot `i`. */
  ghost predicate Met(m: Memory, a: nat, i: nat, j: nat)
    requires a < |m.place|
  {
    match m.place[a]
    case TableAt(x) => x < i
    case PageAt(t, y) => t < |m.place| && m.place[t].TableAt? && (m.place[t].i < i || (m.place[t].i == i && y < j))
    case _ => false
  }

  ghost predicate FreesMet(m: Memory, frees: seq<nat>, i: nat, j: nat) {
    && (forall n :: 0 <= n < |frees| ==> frees[n] < |m.place| && Met(m, frees[n], i, j))
    && (forall n, l :: 0 <= n < l < |frees| ==> frees[n] != frees[l])
    && (forall a :: 0 <= a < |m.place| && Met(m, a, i, j) ==> a in frees)
  }

  lemma FreesMore(m: Memory, frees: seq<nat>, i: nat, j: nat, i': nat, j': nat, a: nat)
    requires FreesMet(m, frees, i, j) && a < |m.place| && !Met(m, a, i, j)
    requires forall b :: 0 <= b < |m.place| ==> (Met(m, b, i', j') <==> Met(m, b, i, j) || b == a)
    ensures FreesMet(m, frees + [a], i', j')
  {
    var frees' := frees + [a];
    assert frees'[|frees|] == a;
    forall b | 0 <= b < |m.place| && Met(m, b, i', j') ensures b in frees' {
      if b != a {
        assert b in frees;
      }
    }
  }

  lemma FreesSame(m: Memory, frees: seq<nat>, i: nat, j: nat, i': nat, j': nat)
    requires FreesMet(m, frees, i, j)
    requires forall b :: 0 <= b < |m.place| ==> (Met(m, b, i', j') <==> Met(m, b, i, j))
    ensures FreesMet(m, frees, i', j')
  {
  }

  lemma PageTurn(m: Memory, i: nat, j: nat)
    requires Inv(m) && i in m.tables
    ensures forall b :: 0 <= b < |m.place| ==>
              (Met(m, b, i, j + 1) <==> Met(m, b, i, j) || ((m.tables[i], j) in m.pages && b == m.pages[(m.tables[i], j)]))
    ensures (m.tables[i], j) in m.pages ==>
              m.pages[(m.tables[i], j)] < |m.place| && !Met(m, m.pages[(m.tables[i], j)], i, j)
  {
    forall b | 0 <= b < |m.place|
      ensures Met(m, b, i, j + 1) <==> Met(m, b, i, j) || ((m.tables[i], j) in m.pages && b == m.pages[(m.tables[i], j)])
    {
      assert Occupied(m, b);
      if m.place[b].PageAt? && m.place[b].t < |m.place| {
        assert Occupied(m, m.place[b].t);
      }
    }
  }

  lemma SlotTurn(m: Memory, i: nat, size: nat)
    requires Inv(m) && forall s :: s in m.pages ==> s.1 < size
    ensures forall b :: 0 <= b < |m.place| ==>
              (Met(m, b, i + 1, 0) <==> Met(m, b, i, size) || (i in m.tables && b == m.tables[i]))
    ensures i in m.tables ==> m.tables[i] < |m.place| && !Met(m, m.tables[i], i, size)
    ensures i !in m.tables ==> forall b :: 0 <= b < |m.place| ==> (Met(m, b, i, size) <==> Met(m, b, i, 0))
  {
    forall b | 0 <= b < |m.place|
      ensures Met(m, b, i + 1, 0) <==> Met(m, b, i, size) || (i in m.tables && b == m.tables[i])
      ensures i !in m.tables ==> (Met(m, b, i, size) <==> Met(m, b, i, 0))
    {
      assert Occupied(m, b);
      if m.place[b].PageAt? && m.place[b].t < |m.place| {
        assert Occupied(m, m.place[b].t);
      }
    }
  }

  /** The destructor's walk over `slots` entries of `size` pages each: it frees exactly the
      published tables and pages, each once. */
  method Destroy(m: Memory, slots: nat, size: nat) returns (frees: seq<nat>)
    requires Inv(m)
    requires (forall i :: i in m.tables ==> i < slots) && forall s :: s in m.pages ==> s.1 < size
    ensures forall n, l :: 0 <= n < l < |frees| ==> frees[n] != frees[l]
    ensures forall a :: a in frees <==> 0 <= a < |m.place| && (m.place[a].TableAt? || m.place[a].PageAt?)
  {
    frees := [];
    for i := 0 to slots
      invariant FreesMet(m, frees, i, 0)
    {
      SlotTurn(m, i, size);
      if i in m.tables {
        var t := m.tables[i];
        for j := 0 to size
          invariant FreesMet(m, frees, i, j)
        {
          PageTurn(m, i, j);
          if (t, j) in m.pages {
            FreesMore(m, frees, i, j, i, j + 1, m.pages[(t, j)]);
            frees := frees + [m.pages[(t, j)]];
          } else {
            FreesSame(m, frees, i, j, i, j + 1);
          }
        }
        FreesMore(m, frees, i, size, i + 1, 0, t);
        frees := frees + [t];
      } else {
        FreesSame(m, frees, i, 0, i + 1, 0);
      }
    }
    AllMet(m, slots);
  }

  lemma AllMet(m: Memory, slots: nat)
    requires Inv(m) && forall i :: i in m.tables ==> i < slots
    ensures forall a :: 0 <= a < |m.place| ==> (Met(m, a, slots, 0) <==> m.place[a].TableAt? || m.place[a].PageAt?)
  {
    forall a | 0 <= a < |m.place| ensures Met(m, a, slots, 0) <==> m.place[a].TableAt? || m.place[a].PageAt? {
      assert Occupied(m, a);
      if m.place[a].PageAt? {
        var i :| TableOf(m, i, m.place[a].t);
      }
    }
  }

  /** When no call is in flight, the frees of lost races and those of the destructor together
      cover every allocation exactly once: nothing leaks and nothing is freed twice. */
  lemma EverythingFreedOnce(m: Memory, frees: seq<nat>)
    requires Inv(m) && forall k :: 0 <= k < |m.threads| ==> m.threads[k].Idle?
    requires forall n, l :: 0 <= n < l < |frees| ==> frees[n] != frees[l]
    requires forall a :: a in frees <==> 0 <= a < |m.place| && (m.place[a].TableAt? || m.place[a].PageAt?)
    ensures forall a :: 0 <= a < |m.place| ==> a in m.frees + frees
    ensures forall n, l :: 0 <= n < l < |m.frees + frees| ==> (m.frees + frees)[n] != (m.frees + frees)[l]
  {
    forall a | 0 <= a < |m.place| ensures a in m.frees + frees {
      assert Occupied(m, a);
    }
    forall n, l | 0 <= n < l < |m.frees + frees| ensures (m.frees + frees)[n] != (m.frees + frees)[l] {
      if n < |m.frees| <= l {
        assert frees[l - |m.frees|] in frees;
      }
    }
  }
}
