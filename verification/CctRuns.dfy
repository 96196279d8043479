/** Runs of any number of threads building their trees in one shared store. The only shared
    write of a step is the fetch-and-add on the handle counter, so a run is an interleaving of
    whole steps, ordered by that counter. */
module CctRuns {
  import opened Cct

  datatype Event = Start | Block(thread: nat, key: nat)

  datatype System = System(store: Store, cursors: seq<Cursor>)

  const INITIAL := System(EMPTY, [])

  ghost predicate SystemInv(shadows: seq<Shadow>, y: System) {
    && Inv(shadows, y.store)
    && forall t :: 0 <= t < |y.cursors| ==> CursorInv(y.store, y.cursors[t])
  }

  predicate Enabled(shadows: seq<Shadow>, threads: nat, e: Event) {
    e.Block? ==> e.thread < threads && 0 < e.key < |shadows|
  }

  ghost function SystemStep(shadows: seq<Shadow>, y: System, e: Event): System
    requires SystemInv(shadows, y)
  {
    if y.store.exited || !Enabled(shadows, |y.cursors|, e) then y else
    match e
    case Start =>
      var (s', c) := StartThread(y.store);
      if s'.exited then y.(store := s') else System(s', y.cursors + [c])
    case Block(t, key) =>
      var (s', c) := Step(shadows, y.store, y.cursors[t], key);
      System(s', y.cursors[t := c])
  }

  lemma SystemStepKeeps(shadows: seq<Shadow>, y: System, e: Event)
    requires SystemInv(shadows, y)
    ensures SystemInv(shadows, SystemStep(shadows, y, e)) && Extends(y.store, SystemStep(shadows, y, e).store)
  {
    var y' := SystemStep(shadows, y, e);
    if !y.store.exited && Enabled(shadows, |y.cursors|, e) {
      match e {
        case Start => StartKeepsInv(shadows, y.store);
        case Block(t, key) => StepKeeps(shadows, y.store, y.cursors[t], key);
      }
      forall t | 0 <= t < |y.cursors| ensures CursorInv(y'.store, y.cursors[t]) {
        ExtendsCursor(y.store, y'.store, y.cursors[t]);
      }
    }
  }

  /** The state after a whole interleaving. */
  ghost function Run(shadows: seq<Shadow>, events: seq<Event>): (y: System)
    requires ValidShadows(shadows)
    ensures SystemInv(shadows, y)
  {
    if events == [] then INITIAL else
    var last := |events| - 1;
    var y := Run(shadows, events[..last]);
    SystemStepKeeps(shadows, y, events[last]);
    SystemStep(shadows, y, events[last])
  }

  /** Every handle given out earlier keeps its node for the rest of the run. */
  lemma {:induction false} RunExtends(shadows: seq<Shadow>, events: seq<Event>, n: nat)
    requires ValidShadows(shadows) && n <= |events|
    ensures Extends(Run(shadows, events[..n]).store, Run(shadows, events).store)
  {
    var last := |events| - 1;
    if n == |events| {
      assert events[..n] == events;
    } else {
      RunExtends(shadows, events[..last], n);
      assert events[..last][..n] == events[..n];
      SystemStepKeeps(shadows, Run(shadows, events[..last]), events[last]);
      ExtendsTrans(Run(shadows, events[..n]).store, Run(shadows, events[..last]).store, Run(shadows, events).store);
    }
  }

  // ---- every thread's tree walk is the stack machine run on its own blocks ----

  datatype Frame = Frame(path: seq<nat>, preState: bv8)

  const ROOT_FRAME := Frame([], STATE_ROOT_VIRTUAL)

  function StackRun(shadows: seq<Shadow>, keys: seq<nat>): Frame
    requires forall i :: 0 <= i < |keys| ==> keys[i] < |shadows|
  {
    if keys == [] then ROOT_FRAME else
    var last := |keys| - 1;
    var f := StackRun(shadows, keys[..last]);
    Frame(NextPath(f.path, f.preState, keys[last]), shadows[keys[last]].endState)
  }

  function Threads(events: seq<Event>): nat {
    if events == [] then 0 else
    Threads(events[..|events| - 1]) + if events[|events| - 1].Start? then 1 else 0
  }

  function OwnStep(shadows: seq<Shadow>, threads: nat, e: Event, t: nat, keys: seq<nat>): seq<nat> {
    if e.Block? && e.thread == t && Enabled(shadows, threads, e) then keys + [e.key] else keys
  }

  /** The blocks that thread `t` executed, in order. */
  function OwnKeys(shadows: seq<Shadow>, events: seq<Event>, t: nat): (keys: seq<nat>)
    ensures forall i :: 0 <= i < |keys| ==> 0 < keys[i] < |shadows|
  {
    if events == [] then [] else
    var last := |events| - 1;
    OwnStep(shadows, Threads(events[..last]), events[last], t, OwnKeys(shadows, events[..last], t))
  }

  ghost predicate At(s: Store, c: Cursor, f: Frame)
    requires Parents(s) && CursorInv(s, c)
  {
    Path(s, c.cur) == f.path && c.preState == f.preState
  }

  lemma ThreadFollows(shadows: seq<Shadow>, y: System, e: Event, t: nat, keys: seq<nat>)
    requires SystemInv(shadows, y) && !SystemStep(shadows, y, e).store.exited && t < |y.cursors|
    requires forall i :: 0 <= i < |keys| ==> 0 < keys[i] < |shadows|
    requires At(y.store, y.cursors[t], StackRun(shadows, keys))
    ensures var y' := SystemStep(shadows, y, e);
            && SystemInv(shadows, y') && t < |y'.cursors|
            && var mine := e.Block? && e.thread == t && Enabled(shadows, |y.cursors|, e);
               At(y'.store, y'.cursors[t], StackRun(shadows, if mine then keys + [e.key] else keys))
  {
    SystemStepKeeps(shadows, y, e);
    var y' := SystemStep(shadows, y, e);
    ExtendsCursor(y.store, y'.store, y.cursors[t]);
    if e.Block? && e.thread == t && Enabled(shadows, |y.cursors|, e) {
      StepRefinesStack(shadows, y.store, y.cursors[t], e.key);
      assert (keys + [e.key])[..|keys|] == keys;
    }
  }

  lemma StartFollows(shadows: seq<Shadow>, y: System, t: nat)
    requires SystemInv(shadows, y) && !SystemStep(shadows, y, Start).store.exited && t == |y.cursors|
    ensures var y' := SystemStep(shadows, y, Start);
            SystemInv(shadows, y') && |y'.cursors| == t + 1 && At(y'.store, y'.cursors[t], ROOT_FRAME)
  {
    SystemStepKeeps(shadows, y, Start);
    StartKeepsInv(shadows, y.store);
  }

  lemma ThreadCount(shadows: seq<Shadow>, y: System, e: Event)
    requires SystemInv(shadows, y) && !SystemStep(shadows, y, e).store.exited
    ensures !y.store.exited
    ensures |SystemStep(shadows, y, e).cursors| == |y.cursors| + if e.Start? then 1 else 0
  {
  }

  /** Thread `t`, if it runs, stands where its own blocks `keys` lead. */
  ghost predicate Follows(shadows: seq<Shadow>, y: System, t: nat, keys: seq<nat>)
    requires SystemInv(shadows, y)
    requires forall i :: 0 <= i < |keys| ==> 0 < keys[i] < |shadows|
  {
    if t < |y.cursors| then At(y.store, y.cursors[t], StackRun(shadows, keys)) else keys == []
  }

  lemma StepFollows(shadows: seq<Shadow>, y: System, e: Event, t: nat, keys: seq<nat>)
    requires SystemInv(shadows, y) && !SystemStep(shadows, y, e).store.exited
    requires forall i :: 0 <= i < |keys| ==> 0 < keys[i] < |shadows|
    requires Follows(shadows, y, t, keys)
    ensures SystemInv(shadows, SystemStep(shadows, y, e))
    ensures Follows(shadows, SystemStep(shadows, y, e), t, OwnStep(shadows, |y.cursors|, e, t, keys))
  {
    ThreadCount(shadows, y, e);
    SystemStepKeeps(shadows, y, e);
    if t < |y.cursors| {
      ThreadFollows(shadows, y, e, t, keys);
    } else if t == |y.cursors| && e == Start {
      StartFollows(shadows, y, t);
    }
  }

  /** Under every interleaving of any number of threads, as long as handles last, each thread
      stands on the path the call-stack machine reaches from that thread's blocks alone. */
  lemma {:induction false} RunRefinesStacks(shadows: seq<Shadow>, events: seq<Event>, t: nat)
    requires ValidShadows(shadows) && !Run(shadows, events).store.exited
    ensures |Run(shadows, events).cursors| == Threads(events)
    ensures Follows(shadows, Run(shadows, events), t, OwnKeys(shadows, events, t))
  {
    if events != [] {
      var last := |events| - 1;
      var y, e := Run(shadows, events[..last]), events[last];
      ThreadCount(shadows, y, e);
      RunRefinesStacks(shadows, events[..last], t);
      StepFollows(shadows, y, e, t, OwnKeys(shadows, events[..last], t));
    }
  }
}
