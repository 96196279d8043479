/** A run whose flattened tree has an inner node with a negative ID. */
module FlattenExample {
  import opened Options
  import opened SplayTree
  import opened Cct
  import opened CctRuns
  import opened CctFlatten
  import T = FmtTrie

  /** Two blocks that overlap, at [6, 7] and at [7], both ending in the call at 7, and one that
      returns. */
  const BLOCKS: seq<Shadow> :=
    [Shadow(1, STATE_ROOT_VIRTUAL, 0, [0]), Shadow(2, STATE_CALL_DIRECT, 0, [6, 7]),
     Shadow(1, STATE_CALL_DIRECT, 0, [7]), Shadow(1, STATE_RETURN, 0, [9])]

  /** The thread enters at 7, calls, returns, and comes by again from 6. */
  const EVENTS: seq<Event> := [Start, Block(0, 2), Block(0, 3), Block(0, 1)]

  const ONLY_SECOND: Tree<Option<nat>> := Node(Leaf, 2, Some(1), Leaf)
  const BOTH: Tree<Option<nat>> := Node(Leaf, 1, Some(3), ONLY_SECOND)
  const CALLED: Tree<Option<nat>> := Node(Leaf, 3, Some(2), Leaf)

  const STARTED := Store([BbNode(0, None, 2, 1, Leaf)], 3, [None, None, Some(0)], false)

  const ENTERED :=
    Store([BbNode(0, None, 2, 1, ONLY_SECOND), BbNode(2, Some(0), 3, 1, Leaf)], 4, [None, None, Some(0), Some(1)], false)

  const RETURNING :=
    Store([BbNode(0, None, 2, 1, ONLY_SECOND), BbNode(2, Some(0), 3, 1, CALLED), BbNode(3, Some(1), 4, 1, Leaf)],
          5, [None, None, Some(0), Some(1), Some(2)], false)

  const FINAL :=
    Store([BbNode(0, None, 2, 1, BOTH), BbNode(2, Some(0), 3, 1, CALLED), BbNode(3, Some(1), 4, 1, Leaf),
           BbNode(1, Some(0), 5, 2, Leaf)],
          7, [None, None, Some(0), Some(1), Some(2), Some(3), Some(3)], false)

  lemma StateFlags()
    ensures IsVirtual(STATE_ROOT_VIRTUAL)
    ensures !IsVirtual(STATE_CALL_DIRECT) && IsCall(STATE_CALL_DIRECT)
    ensures !IsVirtual(STATE_RETURN) && !IsCall(STATE_RETURN) && IsReturn(STATE_RETURN)
  {
  }

  lemma Handles1(node: nat)
    ensures seq(1, _ => Some(node)) == [Some(node)]
  {
  }

  lemma AtStart()
    ensures Run(BLOCKS, EVENTS[..1]) == System(STARTED, [Cursor(0, 0, STATE_ROOT_VIRTUAL)])
  {
    assert EVENTS[..1][..0] == [];
    Handles1(0);
  }

  /** A step that finds the key new, spelled out. */
  lemma StepNew(s: Store, c: Cursor, caller: nat, key: nat, callees: Tree<Option<nat>>, s': Store)
    requires Inv(BLOCKS, s) && CursorInv(s, c) && 0 < key < |BLOCKS| && !s.exited && Caller(s, c) == caller
    requires var found := Splay(s.nodes[caller].callees, key, None); found.Node? && found.value == None
    requires Enter(s.nodes[caller].callees, key, |s.nodes|) == callees && callees.Node? && callees.value == Some(|s.nodes|)
    requires s.idle + BLOCKS[key].slots < CONTEXT_HANDLE_MAX
    requires var slots := BLOCKS[key].slots;
             && s'.nodes == s.nodes[caller := s.nodes[caller].(callees := callees)]
                            + [BbNode(key, Some(caller), s.idle, slots, Leaf)]
             && s'.idle == s.idle + slots && s'.owners == s.owners + seq(slots, _ => Some(|s.nodes|)) && !s'.exited
    ensures Step(BLOCKS, s, c, key) == (s', Cursor(c.root, |s.nodes|, BLOCKS[key].endState))
  {
    var s1 := CreateNode(s, key, Some(caller), BLOCKS[key].slots);
    assert WithCallees(s1, caller, callees) == s';
    assert EnterBlock(BLOCKS, s, caller, key) == (s', |s.nodes|);
  }

  lemma AtSecond()
    ensures Run(BLOCKS, EVENTS[..2]) == System(ENTERED, [Cursor(0, 1, STATE_CALL_DIRECT)])
  {
    AtStart();
    StateFlags();
    Handles1(1);
    var y := Run(BLOCKS, EVENTS[..1]);
    assert EVENTS[..2][..1] == EVENTS[..1] && EVENTS[..2][1] == Block(0, 2);
    assert Caller(y.store, y.cursors[0]) == 0;
    assert Enter(Leaf, 2, 1) == ONLY_SECOND;
    StepNew(y.store, y.cursors[0], 0, 2, ONLY_SECOND, ENTERED);
  }

  lemma AtThird()
    ensures Run(BLOCKS, EVENTS[..3]) == System(RETURNING, [Cursor(0, 2, STATE_RETURN)])
  {
    AtSecond();
    StateFlags();
    Handles1(2);
    var y := Run(BLOCKS, EVENTS[..2]);
    assert EVENTS[..3][..2] == EVENTS[..2] && EVENTS[..3][2] == Block(0, 3);
    assert Caller(y.store, y.cursors[0]) == 1;
    assert Enter(Leaf, 3, 2) == CALLED;
    StepNew(y.store, y.cursors[0], 1, 3, CALLED, RETURNING);
  }

  lemma EnterFirst()
    ensures Splay(ONLY_SECOND, 1, None) == Node(Leaf, 1, None, ONLY_SECOND)
    ensures Enter(ONLY_SECOND, 1, 3) == BOTH
  {
    assert Descend(Single(1, None), 1, None, Bare, Hook(Bare, 2, Some(1), Leaf)) == Node(Leaf, 1, None, ONLY_SECOND);
  }

  lemma LastStep()
    requires Inv(BLOCKS, RETURNING) && CursorInv(RETURNING, Cursor(0, 2, STATE_RETURN))
    ensures Step(BLOCKS, RETURNING, Cursor(0, 2, STATE_RETURN), 1) == (FINAL, Cursor(0, 3, STATE_CALL_DIRECT))
  {
    StateFlags();
    EnterFirst();
    assert Caller(RETURNING, Cursor(0, 2, STATE_RETURN)) == 0;
    assert seq(2, _ => Some(3 as nat)) == [Some(3), Some(3)];
    StepNew(RETURNING, Cursor(0, 2, STATE_RETURN), 0, 1, BOTH, FINAL);
  }

  /** The tree of the example is the one the events build. */
  lemma RunReachesFinal()
    ensures Run(BLOCKS, EVENTS) == System(FINAL, [Cursor(0, 3, STATE_CALL_DIRECT)])
  {
    AtThird();
    LastStep();
    assert EVENTS[3] == Block(0, 1);
    assert Run(BLOCKS, EVENTS) == SystemStep(BLOCKS, Run(BLOCKS, EVENTS[..3]), Block(0, 1));
  }

  lemma FinalInv()
    ensures Inv(BLOCKS, FINAL)
  {
    RunReachesFinal();
  }

  lemma FinalPaths()
    requires Inv(BLOCKS, FINAL)
    ensures PcPath(BLOCKS, FINAL, 2) == [] && PcPath(BLOCKS, FINAL, 5) == [6]
    ensures PcPath(BLOCKS, FINAL, 6) == PcPath(BLOCKS, FINAL, 3) == [7]
  {
    RootVisit(BLOCKS, FINAL, 0);
    PcPathStep(BLOCKS, FINAL, 3, 0);
    PcPathStep(BLOCKS, FINAL, 3, 1);
    PcPathStep(BLOCKS, FINAL, 1, 0);
  }

  lemma FirstVisits()
    requires Inv(BLOCKS, FINAL)
    ensures NodeVisits(BLOCKS, FINAL, 3, 2) == [Visit(5, [6], true), Visit(6, [7], true)]
  {
    FinalPaths();
    assert SlotVisits(BLOCKS, FINAL, 3, 0) == [Visit(5, [6], true)];
    assert SlotVisits(BLOCKS, FINAL, 3, 1) == [Visit(6, [7], true)];
    assert NodeVisits(BLOCKS, FINAL, 3, 0) == [];
    assert NodeVisits(BLOCKS, FINAL, 3, 1) == [Visit(5, [6], true)];
  }

  lemma SecondVisits()
    requires Inv(BLOCKS, FINAL)
    ensures [Visit(3, [7], false)] <= NodeVisits(BLOCKS, FINAL, 1, 1)
  {
    FinalPaths();
    assert SlotVisits(BLOCKS, FINAL, 1, 0)[0] == Visit(3, [7], false);
    assert NodeVisits(BLOCKS, FINAL, 1, 0) == [];
    assert NodeVisits(BLOCKS, FINAL, 1, 1) == [] + SlotVisits(BLOCKS, FINAL, 1, 0);
  }

  lemma BelowRootVisits()
    requires Inv(BLOCKS, FINAL)
    ensures Within(BOTH, FINAL.nodes[0].callees)
    ensures [Visit(5, [6], true), Visit(6, [7], true), Visit(3, [7], false)] <= TreeVisits(BLOCKS, FINAL, 0, BOTH)
  {
    FirstVisits();
    SecondVisits();
    PayloadOf(BLOCKS, FINAL, 0, BOTH);
    PayloadOf(BLOCKS, FINAL, 0, ONLY_SECOND);
    var second := NodeVisits(BLOCKS, FINAL, 1, 1);
    var right := TreeVisits(BLOCKS, FINAL, 0, ONLY_SECOND);
    assert TreeVisits(BLOCKS, FINAL, 0, ONLY_SECOND.left) == [] && TreeVisits(BLOCKS, FINAL, 0, ONLY_SECOND.right) == [];
    assert right == [] + second + [];
    assert right[0] == Visit(3, [7], false);
    assert TreeVisits(BLOCKS, FINAL, 0, BOTH) == [] + [Visit(5, [6], true), Visit(6, [7], true)] + right;
  }

  lemma AllVisits()
    requires Inv(BLOCKS, FINAL)
    ensures [Visit(2, [], false), Visit(5, [6], true), Visit(6, [7], true), Visit(3, [7], false)]
            <= ThreadVisits(BLOCKS, FINAL, 0)
  {
    FinalPaths();
    BelowRootVisits();
    var rest := TreeVisits(BLOCKS, FINAL, 0, BOTH);
    assert SlotVisits(BLOCKS, FINAL, 0, 0) == [Visit(2, [], false)] + rest;
    assert NodeVisits(BLOCKS, FINAL, 0, 0) == [];
    assert NodeVisits(BLOCKS, FINAL, 0, 1) == [] + SlotVisits(BLOCKS, FINAL, 0, 0);
  }

  ghost function FinalMarks(): Marks {
    FinalInv();
    RunReachesFinal();
    Marked(map[], ThreadVisits(BLOCKS, Run(BLOCKS, EVENTS).store, 0))
  }

  /** Every flattened form of what the run built has children and a negative ID at the node [7]. */
  lemma NegativeInnerExists(ns: seq<T.FmtNode>) returns (i: nat)
    requires T.Linked(ns) && Signs(ns, FinalMarks())
    ensures i < |ns| && T.Path(ns, i) == [7] && ns[i].id < 0 && ns[i].children != []
  {
    FinalInv();
    RunReachesFinal();
    AllVisits();
    var visits := ThreadVisits(BLOCKS, FINAL, 0);
    assert visits[0].path == [] && visits[1].path == [6] && visits[2] == Visit(6, [7], true) && visits[3] == Visit(3, [7], false);
    assert IsFirst(visits, 2);
    MarkedAt(visits, [7]);
    i :| i < |ns| && T.Path(ns, i) == [7];
    NegativeAndInner(BLOCKS, FINAL, 0, ns, i);
  }
}
