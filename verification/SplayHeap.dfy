/** The splay step on linked nodes, relinking in place through a dummy node. */
module SplayHeap {
  import opened Options
  import opened SplayTree

  class SplayNode {
    var key: int
    var payload: Option<nat>
    var left: SplayNode?
    var right: SplayNode?

    constructor ()
      ensures payload == None && left == null && right == null
    {
      key, payload, left, right := 0, None, null, null;
    }
  }

  type Shape = Tree<SplayNode>

  ghost function Objects(t: Shape): set<SplayNode> {
    match t
    case Leaf => {}
    case Node(l, _, n, r) => Objects(l) + {n} + Objects(r)
  }

  /** The links from `p` form exactly the tree `t`, without sharing. */
  ghost predicate Rep(p: SplayNode?, t: Shape)
    reads Objects(t)
  {
    match t
    case Leaf => p == null
    case Node(l, k, n, r) =>
      && p == n && n.key == k
      && Rep(n.left, l) && Rep(n.right, r)
      && n !in Objects(l) && n !in Objects(r) && Objects(l) !! Objects(r)
  }

  ghost function Held(s: Spine<SplayNode>): set<SplayNode> {
    match s
    case Bare => {}
    case Hook(outer, _, n, kept) => Held(outer) + {n} + Objects(kept)
  }

  /** The node whose inner link is open: `ltree_max_node` or `rtree_min_node`. */
  function Tip(s: Spine<SplayNode>, dummy: SplayNode): SplayNode {
    if s.Bare? then dummy else s.value
  }

  /** The left assembly hangs off `dummy.right`; the right link of its tip is open. */
  ghost predicate RepLeft(s: Spine<SplayNode>, dummy: SplayNode)
    reads Held(s), dummy`right
  {
    match s
    case Bare => true
    case Hook(outer, k, n, kept) =>
      && n.key == k && Rep(n.left, kept)
      && RepLeft(outer, dummy) && Tip(outer, dummy).right == n
      && n !in Objects(kept) && n !in Held(outer) && Objects(kept) !! Held(outer)
  }

  /** The right assembly hangs off `dummy.left`; the left link of its tip is open. */
  ghost predicate RepRight(s: Spine<SplayNode>, dummy: SplayNode)
    reads Held(s), dummy`left
  {
    match s
    case Bare => true
    case Hook(outer, k, n, kept) =>
      && n.key == k && Rep(n.right, kept)
      && RepRight(outer, dummy) && Tip(outer, dummy).left == n
      && n !in Objects(kept) && n !in Held(outer) && Objects(kept) !! Held(outer)
  }

  lemma {:induction false} RepClosedLeft(s: Spine<SplayNode>, hole: Shape, dummy: SplayNode)
    requires RepLeft(s, dummy) && Rep(Tip(s, dummy).right, hole) && Held(s) !! Objects(hole)
    ensures Rep(dummy.right, CloseLeft(s, hole)) && Objects(CloseLeft(s, hole)) == Held(s) + Objects(hole)
    decreases s
  {
    match s
    case Bare =>
    case Hook(outer, k, n, kept) => RepClosedLeft(outer, Node(kept, k, n, hole), dummy);
  }

  lemma {:induction false} RepClosedRight(s: Spine<SplayNode>, hole: Shape, dummy: SplayNode)
    requires RepRight(s, dummy) && Rep(Tip(s, dummy).left, hole) && Held(s) !! Objects(hole)
    ensures Rep(dummy.left, CloseRight(s, hole)) && Objects(CloseRight(s, hole)) == Held(s) + Objects(hole)
    decreases s
  {
    match s
    case Bare =>
    case Hook(outer, k, n, kept) => RepClosedRight(outer, Node(hole, k, n, kept), dummy);
  }

  /** Links the new node where the descent would fall off the tree to the left. */
  method LinkLeft(root: SplayNode, key: int, added: SplayNode, ghost t: Shape)
    requires t.Node? && Rep(root, t)
    requires t.left.Leaf? ==> added !in Objects(t) && added.left == null && added.right == null
    modifies root`left, added`key
    ensures Rep(root, t.(left := OrNew(t.left, key, added)))
    ensures old(root.left) != null ==> added.key == old(added.key)
  {
    if root.left == null {
      added.key := key;
      root.left := added;
    }
  }

  method LinkRight(root: SplayNode, key: int, added: SplayNode, ghost t: Shape)
    requires t.Node? && Rep(root, t)
    requires t.right.Leaf? ==> added !in Objects(t) && added.left == null && added.right == null
    modifies root`right, added`key
    ensures Rep(root, t.(right := OrNew(t.right, key, added)))
    ensures old(root.right) != null ==> added.key == old(added.key)
  {
    if root.right == null {
      added.key := key;
      root.right := added;
    }
  }

  method RotateRight(root: SplayNode, ghost t: Shape) returns (top: SplayNode)
    requires t.Node? && t.left.Node? && Rep(root, t)
    modifies root`left, t.left.value`right
    ensures Rep(top, Node(t.left.left, t.left.key, t.left.value, Node(t.left.right, t.key, t.value, t.right)))
  {
    top := root.left;
    root.left := top.right;
    top.right := root;
  }

  method RotateLeft(root: SplayNode, ghost t: Shape) returns (top: SplayNode)
    requires t.Node? && t.right.Node? && Rep(root, t)
    modifies root`right, t.right.value`left
    ensures Rep(top, Node(Node(t.left, t.key, t.value, t.right.left), t.right.key, t.right.value, t.right.right))
  {
    top := root.right;
    root.right := top.left;
    top.left := root;
  }

  /** The tree still to search and the two assemblies are separate and made of nodes of `repr`;
      the dummy is outside them, and so is `added` unless the search has just ended on it. */
  ghost predicate Apart(key: int, dummy: SplayNode, added: SplayNode,
                        t: Shape, l: Spine<SplayNode>, r: Spine<SplayNode>, repr: set<SplayNode>)
  {
    && t.Node?
    && Objects(t) !! Held(l) && Objects(t) !! Held(r) && Held(l) !! Held(r)
    && Objects(t) + Held(l) + Held(r) <= repr && added in repr
    && dummy !in Objects(t) + Held(l) + Held(r) && dummy != added
    && added !in Held(l) + Held(r)
    && (t == Single(key, added) || added !in Objects(t))
  }

  /** What holds between two iterations of the descent. */
  ghost predicate Searching(root: SplayNode, dummy: SplayNode, t: Shape, l: Spine<SplayNode>, r: Spine<SplayNode>)
    reads Objects(t), Held(l), Held(r), dummy
  {
    Rep(root, t) && RepLeft(l, dummy) && RepRight(r, dummy)
  }

  /** Hooks the root above the sought key onto the right assembly. */
  method HookAbove(root: SplayNode, rtreeMin: SplayNode, dummy: SplayNode, ghost t: Shape, ghost r: Spine<SplayNode>)
    requires t.Node? && Rep(root, t) && RepRight(r, dummy) && rtreeMin == Tip(r, dummy)
    requires Objects(t) !! Held(r) && dummy !in Objects(t) + Held(r)
    modifies rtreeMin`left
    ensures RepRight(Hook(r, t.key, root, t.right), dummy) && Rep(root.left, t.left)
  {
    rtreeMin.left := root;
  }

  /** Hooks the root below the sought key onto the left assembly. */
  method HookBelow(root: SplayNode, ltreeMax: SplayNode, dummy: SplayNode, ghost t: Shape, ghost l: Spine<SplayNode>)
    requires t.Node? && Rep(root, t) && RepLeft(l, dummy) && ltreeMax == Tip(l, dummy)
    requires Objects(t) !! Held(l) && dummy !in Objects(t) + Held(l)
    modifies ltreeMax`right
    ensures RepLeft(Hook(l, t.key, root, t.left), dummy) && Rep(root.right, t.right)
  {
    ltreeMax.right := root;
  }

  /** The tree after the links and the rotation of one iteration, just before its root is hooked. */
  function TurnedRight<V>(t: Tree<V>, key: int, added: V): Tree<V>
    requires t.Node?
  {
    var child := OrNew(t.left, key, added);
    if key < child.key then
      Node(OrNew(child.left, key, added), child.key, child.value, Node(child.right, t.key, t.value, t.right))
    else
      t.(left := child)
  }

  function TurnedLeft<V>(t: Tree<V>, key: int, added: V): Tree<V>
    requires t.Node?
  {
    var child := OrNew(t.right, key, added);
    if key > child.key then
      Node(Node(t.left, t.key, t.value, child.left), child.key, child.value, OrNew(child.right, key, added))
    else
      t.(right := child)
  }

  lemma TurnedRightDescends(t: Shape, key: int, added: SplayNode, l: Spine<SplayNode>, r: Spine<SplayNode>)
    requires t.Node? && key < t.key
    ensures var t' := TurnedRight(t, key, added);
            && Descend(t, key, added, l, r) == Descend(t'.left, key, added, l, Hook(r, t'.key, t'.value, t'.right))
            && Distance(t'.left, key) < Distance(t, key)
  {
    Shorter(t, key);
  }

  lemma TurnedLeftDescends(t: Shape, key: int, added: SplayNode, l: Spine<SplayNode>, r: Spine<SplayNode>)
    requires t.Node? && key > t.key
    ensures var t' := TurnedLeft(t, key, added);
            && Descend(t, key, added, l, r) == Descend(t'.right, key, added, Hook(l, t'.key, t'.value, t'.left), r)
            && Distance(t'.right, key) < Distance(t, key)
  {
    Shorter(t, key);
  }

  lemma TurnedRightObjects(t: Shape, key: int, added: SplayNode)
    requires t.Node? && key < t.key
    ensures var t' := TurnedRight(t, key, added);
            Objects(t') == Objects(t) || (Objects(t') == Objects(t) + {added} && t'.left == Single(key, added))
  {
  }

  lemma TurnedLeftObjects(t: Shape, key: int, added: SplayNode)
    requires t.Node? && key > t.key
    ensures var t' := TurnedLeft(t, key, added);
            Objects(t') == Objects(t) || (Objects(t') == Objects(t) + {added} && t'.right == Single(key, added))
  {
  }

  method TurnRight(top: SplayNode, key: int, added: SplayNode, ghost t: Shape) returns (root: SplayNode)
    requires t.Node? && Rep(top, t)
    requires added !in Objects(t) && added.left == null && added.right == null
    modifies Objects(t)`left, Objects(t)`right, added`key
    ensures Rep(root, TurnedRight(t, key, added))
    ensures added in Objects(TurnedRight(t, key, added)) || added.key == old(added.key)
  {
    root := top;
    LinkLeft(root, key, added, t);
    ghost var linked := t.(left := OrNew(t.left, key, added));
    if key < root.left.key {
      root := RotateRight(root, linked);
      ghost var child := linked.left;
      LinkLeft(root, key, added, Node(child.left, child.key, child.value, Node(child.right, t.key, t.value, t.right)));
    }
  }

  method TurnLeft(top: SplayNode, key: int, added: SplayNode, ghost t: Shape) returns (root: SplayNode)
    requires t.Node? && Rep(top, t)
    requires added !in Objects(t) && added.left == null && added.right == null
    modifies Objects(t)`left, Objects(t)`right, added`key
    ensures Rep(root, TurnedLeft(t, key, added))
    ensures added in Objects(TurnedLeft(t, key, added)) || added.key == old(added.key)
  {
    root := top;
    LinkRight(root, key, added, t);
    ghost var linked := t.(right := OrNew(t.right, key, added));
    if key > root.right.key {
      root := RotateLeft(root, linked);
      ghost var child := linked.right;
      LinkRight(root, key, added, Node(Node(t.left, t.key, t.value, child.left), child.key, child.value, child.right));
    }
  }

  /** The assemblies do not notice the links and the rotation of an iteration. */
  method TurnRightBeside(top: SplayNode, key: int, dummy: SplayNode, added: SplayNode,
                         ghost t: Shape, ghost l: Spine<SplayNode>, ghost r: Spine<SplayNode>, ghost repr: set<SplayNode>)
    returns (root: SplayNode)
    requires Searching(top, dummy, t, l, r) && Apart(key, dummy, added, t, l, r, repr)
    requires key < t.key && added.left == null && added.right == null
    modifies Objects(t)`left, Objects(t)`right, added`key
    ensures var t' := TurnedRight(t, key, added);
            && Searching(root, dummy, t', l, r) && Objects(t') <= Objects(t) + {added}
            && (added in Objects(t') || added.key == old(added.key))
  {
    root := TurnRight(top, key, added, t);
    TurnedRightObjects(t, key, added);
  }

  method TurnLeftBeside(top: SplayNode, key: int, dummy: SplayNode, added: SplayNode,
                        ghost t: Shape, ghost l: Spine<SplayNode>, ghost r: Spine<SplayNode>, ghost repr: set<SplayNode>)
    returns (root: SplayNode)
    requires Searching(top, dummy, t, l, r) && Apart(key, dummy, added, t, l, r, repr)
    requires key > t.key && added.left == null && added.right == null
    modifies Objects(t)`left, Objects(t)`right, added`key
    ensures var t' := TurnedLeft(t, key, added);
            && Searching(root, dummy, t', l, r) && Objects(t') <= Objects(t) + {added}
            && (added in Objects(t') || added.key == old(added.key))
  {
    root := TurnLeft(top, key, added, t);
    TurnedLeftObjects(t, key, added);
  }

  /** Nor does the other assembly notice the hook. */
  method HookAboveBeside(top: SplayNode, rtreeMin: SplayNode, dummy: SplayNode, ghost t: Shape,
                         ghost l: Spine<SplayNode>, ghost r: Spine<SplayNode>, ghost repr: set<SplayNode>)
    returns (root: SplayNode)
    requires t.Node? && t.left.Node? && Searching(top, dummy, t, l, r) && rtreeMin == Tip(r, dummy)
    requires Objects(t) !! Held(l) && Objects(t) !! Held(r) && Held(l) !! Held(r)
    requires Objects(t) + Held(l) + Held(r) <= repr && dummy !in Objects(t) + Held(l) + Held(r)
    modifies rtreeMin`left
    ensures Searching(root, dummy, t.left, l, Hook(r, t.key, t.value, t.right)) && top == t.value && Unshared(t)
  {
    HookAbove(top, rtreeMin, dummy, t, r);
    assert RepLeft(l, dummy);
    root := top.left;
  }

  method HookBelowBeside(top: SplayNode, ltreeMax: SplayNode, dummy: SplayNode, ghost t: Shape,
                         ghost l: Spine<SplayNode>, ghost r: Spine<SplayNode>, ghost repr: set<SplayNode>)
    returns (root: SplayNode)
    requires t.Node? && t.right.Node? && Searching(top, dummy, t, l, r) && ltreeMax == Tip(l, dummy)
    requires Objects(t) !! Held(l) && Objects(t) !! Held(r) && Held(l) !! Held(r)
    requires Objects(t) + Held(l) + Held(r) <= repr && dummy !in Objects(t) + Held(l) + Held(r)
    modifies ltreeMax`right
    ensures Searching(root, dummy, t.right, Hook(l, t.key, t.value, t.left), r) && top == t.value && Unshared(t)
  {
    HookBelow(top, ltreeMax, dummy, t, l);
    assert RepRight(r, dummy);
    root := top.right;
  }

  /** One iteration of the loop with the key below the root. */
  method DescendLeft(top: SplayNode, key: int, dummy: SplayNode, added: SplayNode, rtreeMin: SplayNode,
                     ghost t: Shape, ghost l: Spine<SplayNode>, ghost r: Spine<SplayNode>, ghost repr: set<SplayNode>)
    returns (root: SplayNode, tip: SplayNode)
    requires Searching(top, dummy, t, l, r) && Apart(key, dummy, added, t, l, r, repr)
    requires key < t.key && added.left == null && added.right == null && rtreeMin == Tip(r, dummy)
    modifies Objects(t)`left, Objects(t)`right, rtreeMin`left, added`key
    ensures var t' := TurnedRight(t, key, added);
            && Searching(root, dummy, t'.left, l, Hook(r, t'.key, t'.value, t'.right))
            && tip == t'.value
            && Unshared(t')
            && (added in Objects(t') || added.key == old(added.key))
  {
    tip := TurnRightBeside(top, key, dummy, added, t, l, r, repr);
    ghost var t' := TurnedRight(t, key, added);
    root := HookAboveBeside(tip, rtreeMin, dummy, t', l, r, repr);
  }

  /** One iteration of the loop with the key above the root. */
  method DescendRight(top: SplayNode, key: int, dummy: SplayNode, added: SplayNode, ltreeMax: SplayNode,
                      ghost t: Shape, ghost l: Spine<SplayNode>, ghost r: Spine<SplayNode>, ghost repr: set<SplayNode>)
    returns (root: SplayNode, tip: SplayNode)
    requires Searching(top, dummy, t, l, r) && Apart(key, dummy, added, t, l, r, repr)
    requires key > t.key && added.left == null && added.right == null && ltreeMax == Tip(l, dummy)
    modifies Objects(t)`left, Objects(t)`right, ltreeMax`right, added`key
    ensures var t' := TurnedLeft(t, key, added);
            && Searching(root, dummy, t'.right, Hook(l, t'.key, t'.value, t'.left), r)
            && tip == t'.value
            && Unshared(t')
            && (added in Objects(t') || added.key == old(added.key))
  {
    tip := TurnLeftBeside(top, key, dummy, added, t, l, r, repr);
    ghost var t' := TurnedLeft(t, key, added);
    root := HookBelowBeside(tip, ltreeMax, dummy, t', l, r, repr);
  }

  /** After the loop the subtrees of the found root fill the open ends of both assemblies. */
  method CloseAssemblies(root: SplayNode, dummy: SplayNode, ltreeMax: SplayNode, rtreeMin: SplayNode, key: int,
                         added: SplayNode, ghost t: Shape, ghost l: Spine<SplayNode>, ghost r: Spine<SplayNode>,
                         ghost repr: set<SplayNode>)
    requires Searching(root, dummy, t, l, r) && Apart(key, dummy, added, t, l, r, repr)
    requires ltreeMax == Tip(l, dummy) && rtreeMin == Tip(r, dummy)
    modifies ltreeMax`right, rtreeMin`left
    ensures Rep(dummy.right, CloseLeft(l, t.left)) && Objects(CloseLeft(l, t.left)) == Held(l) + Objects(t.left)
    ensures Rep(dummy.left, CloseRight(r, t.right)) && Objects(CloseRight(r, t.right)) == Held(r) + Objects(t.right)
  {
    assert Tip(r, dummy) !in Held(l) + Objects(t.left);
    CloseLower(root, dummy, ltreeMax, t, l);
    assert RepRight(r, dummy) && Rep(root.right, t.right);
    ghost var lower := CloseLeft(l, t.left);
    assert Rep(dummy.right, lower) && rtreeMin !in Objects(lower);
    CloseUpper(root, dummy, rtreeMin, t, r);
    assert Rep(dummy.right, lower);
  }

  method CloseLower(root: SplayNode, dummy: SplayNode, ltreeMax: SplayNode, ghost t: Shape, ghost l: Spine<SplayNode>)
    requires t.Node? && RepLeft(l, dummy) && Rep(root.left, t.left) && ltreeMax == Tip(l, dummy)
    requires Held(l) !! Objects(t.left) && dummy !in Held(l) && dummy !in Objects(t.left)
    modifies ltreeMax`right
    ensures Rep(dummy.right, CloseLeft(l, t.left)) && Objects(CloseLeft(l, t.left)) == Held(l) + Objects(t.left)
  {
    ltreeMax.right := root.left;
    RepClosedLeft(l, t.left, dummy);
  }

  method CloseUpper(root: SplayNode, dummy: SplayNode, rtreeMin: SplayNode, ghost t: Shape, ghost r: Spine<SplayNode>)
    requires t.Node? && RepRight(r, dummy) && Rep(root.right, t.right) && rtreeMin == Tip(r, dummy)
    requires Held(r) !! Objects(t.right) && dummy !in Held(r) && dummy !in Objects(t.right)
    modifies rtreeMin`left
    ensures Rep(dummy.left, CloseRight(r, t.right)) && Objects(CloseRight(r, t.right)) == Held(r) + Objects(t.right)
  {
    rtreeMin.left := root.right;
    RepClosedRight(r, t.right, dummy);
  }

  /** Both assemblies, now reachable from the dummy, become the subtrees of the found root. */
  method Reassemble(root: SplayNode, dummy: SplayNode, key: int, ghost a: Shape, ghost b: Shape, ghost repr: set<SplayNode>)
    requires Rep(dummy.right, a) && Rep(dummy.left, b) && Objects(a) !! Objects(b)
    requires root !in Objects(a) && root !in Objects(b) && root != dummy && root.key == key
    requires Objects(a) + Objects(b) <= repr
    modifies root`left, root`right
    ensures Rep(root, Node(a, key, root, b))
  {
    root.left := dummy.right;
    root.right := dummy.left;
  }

  /** The root of a tree and its two subtrees share no node. */
  ghost predicate Unshared(t: Shape) {
    t.Node? && t.value !in Objects(t.left) && t.value !in Objects(t.right) && Objects(t.left) !! Objects(t.right)
  }

  /** What the descent keeps of the tree it started from: all its nodes, and its outcome. */
  ghost predicate Continues(key: int, dummy: SplayNode, added: SplayNode, t: Shape, l: Spine<SplayNode>,
                            r: Spine<SplayNode>, start: Shape, repr: set<SplayNode>)
  {
    && Apart(key, dummy, added, t, l, r, repr)
    && Objects(start) <= Objects(t) + Held(l) + Held(r) <= Objects(start) + {added}
    && Descend(t, key, added, l, r) == Splay(start, key, added)
  }

  lemma ContinuesBelow(key: int, dummy: SplayNode, added: SplayNode, t: Shape, l: Spine<SplayNode>, r: Spine<SplayNode>,
                       start: Shape, repr: set<SplayNode>)
    requires Continues(key, dummy, added, t, l, r, start, repr) && key < t.key && Unshared(TurnedRight(t, key, added))
    ensures var t' := TurnedRight(t, key, added);
            && Continues(key, dummy, added, t'.left, l, Hook(r, t'.key, t'.value, t'.right), start, repr)
            && (added in Objects(t') <==> added in Objects(t'.left))
            && Distance(t'.left, key) < Distance(t, key)
  {
    TurnedRightDescends(t, key, added, l, r);
    TurnedRightObjects(t, key, added);
  }

  lemma ContinuesAbove(key: int, dummy: SplayNode, added: SplayNode, t: Shape, l: Spine<SplayNode>, r: Spine<SplayNode>,
                       start: Shape, repr: set<SplayNode>)
    requires Continues(key, dummy, added, t, l, r, start, repr) && key > t.key && Unshared(TurnedLeft(t, key, added))
    ensures var t' := TurnedLeft(t, key, added);
            && Continues(key, dummy, added, t'.right, Hook(l, t'.key, t'.value, t'.left), r, start, repr)
            && (added in Objects(t') <==> added in Objects(t'.right))
            && Distance(t'.right, key) < Distance(t, key)
  {
    TurnedLeftDescends(t, key, added, l, r);
    TurnedLeftObjects(t, key, added);
  }

  /** The new node as long as the descent has not linked it. */
  ghost predicate Idle(added: SplayNode, key: int, t: Shape)
    reads added
  {
    added !in Objects(t) ==> added.key == key && added.left == null && added.right == null
  }

  /** What every iteration of the descent keeps. */
  ghost predicate Descending(root: SplayNode, key: int, dummy: SplayNode, added: SplayNode, key0: int,
                             ltreeMax: SplayNode, rtreeMin: SplayNode, t: Shape, l: Spine<SplayNode>, r: Spine<SplayNode>,
                             start: Shape, repr: set<SplayNode>)
    reads Objects(t), Held(l), Held(r), dummy, added
  {
    && Searching(root, dummy, t, l, r) && Continues(key, dummy, added, t, l, r, start, repr)
    && ltreeMax == Tip(l, dummy) && rtreeMin == Tip(r, dummy) && Idle(added, key0, t)
  }

  /** Not at the key yet: the tree searched is not the new node alone, so that is still to be linked. */
  lemma NotLinkedYet(key: int, dummy: SplayNode, added: SplayNode, key0: int, t: Shape, l: Spine<SplayNode>,
                     r: Spine<SplayNode>, repr: set<SplayNode>)
    requires Apart(key, dummy, added, t, l, r, repr) && t.key != key && Idle(added, key0, t)
    ensures added !in Objects(t) && added.key == key0 && added.left == null && added.right == null
  {
  }

  method PassLeft(top: SplayNode, key: int, dummy: SplayNode, added: SplayNode, ghost key0: int,
                  ltreeMax: SplayNode, rtreeMin: SplayNode, ghost t: Shape, ghost l: Spine<SplayNode>,
                  ghost r: Spine<SplayNode>, ghost start: Shape, ghost repr: set<SplayNode>)
    returns (root: SplayNode, tip: SplayNode, ghost t': Shape, ghost r': Spine<SplayNode>)
    requires Descending(top, key, dummy, added, key0, ltreeMax, rtreeMin, t, l, r, start, repr) && key < t.key
    modifies Objects(t)`left, Objects(t)`right, rtreeMin`left, added`key
    ensures Descending(root, key, dummy, added, key0, ltreeMax, tip, t', l, r', start, repr)
    ensures Distance(t', key) < Distance(t, key)
  {
    NotLinkedYet(key, dummy, added, key0, t, l, r, repr);
    root, tip := DescendLeft(top, key, dummy, added, rtreeMin, t, l, r, repr);
    ContinuesBelow(key, dummy, added, t, l, r, start, repr);
    ghost var turned := TurnedRight(t, key, added);
    t', r' := turned.left, Hook(r, turned.key, turned.value, turned.right);
  }

  method PassRight(top: SplayNode, key: int, dummy: SplayNode, added: SplayNode, ghost key0: int,
                   ltreeMax: SplayNode, rtreeMin: SplayNode, ghost t: Shape, ghost l: Spine<SplayNode>,
                   ghost r: Spine<SplayNode>, ghost start: Shape, ghost repr: set<SplayNode>)
    returns (root: SplayNode, tip: SplayNode, ghost t': Shape, ghost l': Spine<SplayNode>)
    requires Descending(top, key, dummy, added, key0, ltreeMax, rtreeMin, t, l, r, start, repr) && key > t.key
    modifies Objects(t)`left, Objects(t)`right, ltreeMax`right, added`key
    ensures Descending(root, key, dummy, added, key0, tip, rtreeMin, t', l', r, start, repr)
    ensures Distance(t', key) < Distance(t, key)
  {
    NotLinkedYet(key, dummy, added, key0, t, l, r, repr);
    root, tip := DescendRight(top, key, dummy, added, ltreeMax, t, l, r, repr);
    ContinuesAbove(key, dummy, added, t, l, r, start, repr);
    ghost var turned := TurnedLeft(t, key, added);
    t', l' := turned.right, Hook(l, turned.key, turned.value, turned.left);
  }

  /** The descent loop: it ends with the key at the root of what is left to search. */
  method Search(start: SplayNode, key: int, dummy: SplayNode, added: SplayNode, ghost t0: Shape, ghost repr: set<SplayNode>)
    returns (root: SplayNode, ltreeMax: SplayNode, rtreeMin: SplayNode,
             ghost t: Shape, ghost l: Spine<SplayNode>, ghost r: Spine<SplayNode>)
    requires t0.Node? && Searching(start, dummy, t0, Bare, Bare) && Apart(key, dummy, added, t0, Bare, Bare, repr)
    requires added !in Objects(t0) && added.left == null && added.right == null
    modifies repr`left, repr`right, dummy`left, dummy`right, added`key
    ensures Searching(root, dummy, t, l, r) && Continues(key, dummy, added, t, l, r, t0, repr)
    ensures ltreeMax == Tip(l, dummy) && rtreeMin == Tip(r, dummy) && t.key == key
    ensures Idle(added, old(added.key), t)
  {
    root, ltreeMax, rtreeMin := start, dummy, dummy;
    t, l, r := t0, Bare, Bare;
    ghost var key0 := added.key;
    while key != root.key
      invariant Descending(root, key, dummy, added, key0, ltreeMax, rtreeMin, t, l, r, t0, repr)
      decreases Distance(t, key)
    {
      if key < root.key {
        root, rtreeMin, t, r := PassLeft(root, key, dummy, added, key0, ltreeMax, rtreeMin, t, l, r, t0, repr);
      } else {
        root, ltreeMax, t, l := PassRight(root, key, dummy, added, key0, ltreeMax, rtreeMin, t, l, r, t0, repr);
      }
    }
  }

  /** The end of `splay_tree_update`: what was found is put on top of both assemblies. */
  method Rejoin(root: SplayNode, dummy: SplayNode, ltreeMax: SplayNode, rtreeMin: SplayNode, key: int, added: SplayNode,
                ghost t: Shape, ghost l: Spine<SplayNode>, ghost r: Spine<SplayNode>, ghost repr: set<SplayNode>)
    requires Searching(root, dummy, t, l, r) && Apart(key, dummy, added, t, l, r, repr) && t.key == key
    requires ltreeMax == Tip(l, dummy) && rtreeMin == Tip(r, dummy)
    modifies repr`left, repr`right, dummy`left, dummy`right
    ensures Rep(root, Descend(t, key, added, l, r))
    ensures Objects(Descend(t, key, added, l, r)) == Objects(t) + Held(l) + Held(r)
    ensures added !in Objects(t) ==> added.left == old(added.left) && added.right == old(added.right)
  {
    CloseAssemblies(root, dummy, ltreeMax, rtreeMin, key, added, t, l, r, repr);
    Reassemble(root, dummy, key, CloseLeft(l, t.left), CloseRight(r, t.right), repr);
  }

  /** `splay_tree_update`: the result has exactly the shape `Splay` describes. Only links of the
      tree's nodes and of the dummy change, besides the key of a newly linked node, so every
      other key and every payload stays what it was. */
  method Update(start: SplayNode?, key: int, dummy: SplayNode, added: SplayNode, ghost t0: Shape, ghost repr: set<SplayNode>)
    returns (root: SplayNode)
    requires Rep(start, t0) && repr == Objects(t0) + {added}
    requires dummy !in Objects(t0) && added !in Objects(t0) && dummy != added
    requires added.left == null && added.right == null
    modifies repr`left, repr`right, dummy`left, dummy`right, added`key
    ensures Rep(root, Splay(t0, key, added))
    ensures Objects(t0) <= Objects(Splay(t0, key, added)) <= Objects(t0) + {added}
    ensures Idle(added, old(added.key), Splay(t0, key, added))
  {
    if start != null {
      dummy.left, dummy.right := null, null;
      var ltreeMax, rtreeMin;
      ghost var t, l, r;
      root, ltreeMax, rtreeMin, t, l, r := Search(start, key, dummy, added, t0, repr);
      Rejoin(root, dummy, ltreeMax, rtreeMin, key, added, t, l, r, repr);
    } else {
      added.key := key;
      root := added;
    }
  }

  /** The callee tree a caller sees: keys and payloads, without the nodes. */
  ghost function Payloads(t: Shape): Tree<Option<nat>>
    reads Objects(t)`payload
  {
    match t
    case Leaf => Leaf
    case Node(l, k, n, r) => Node(Payloads(l), k, n.payload, Payloads(r))
  }

  lemma {:induction false} PayloadsAsMap(t: Shape, f: SplayNode -> Option<nat>)
    requires forall n <- Objects(t) :: f(n) == n.payload
    ensures Payloads(t) == MapTree(t, f)
    decreases t
  {
    if t.Node? {
      PayloadsAsMap(t.left, f);
      PayloadsAsMap(t.right, f);
    }
  }

  lemma SplayPayloads(t: Shape, key: int, added: SplayNode, repr: set<SplayNode>)
    requires Objects(t) + {added} <= repr && Objects(Splay(t, key, added)) <= repr
    ensures Payloads(Splay(t, key, added)) == Splay(Payloads(t), key, added.payload)
  {
    var payloads := map n | n in repr :: n.payload;
    var f := (n: SplayNode) => if n in payloads then payloads[n] else None;
    PayloadsAsMap(t, f);
    PayloadsAsMap(Splay(t, key, added), f);
    SplayNatural(t, key, added, f);
  }

  /** Looking a callee up and registering it when it is new, as every step of the calling
      context tree does: on payloads this is exactly `Enter`. */
  method EnterCallee(start: SplayNode?, key: int, dummy: SplayNode, added: SplayNode, id: nat,
                     ghost t0: Shape, ghost repr: set<SplayNode>)
    returns (root: SplayNode, isNew: bool)
    requires Rep(start, t0) && repr == Objects(t0) + {added}
    requires dummy !in Objects(t0) && added !in Objects(t0) && dummy != added
    requires added.left == null && added.right == null && added.payload == None
    modifies repr, dummy`left, dummy`right
    ensures Rep(root, Splay(t0, key, added))
    ensures Payloads(Splay(t0, key, added)) == Enter(old(Payloads(t0)), key, id)
    ensures isNew <==> Splay(old(Payloads(t0)), key, None).value == None
  {
    root := Update(start, key, dummy, added, t0, repr);
    ghost var t := Splay(t0, key, added);
    SplayPayloads(t0, key, added, repr);
    isNew := root.payload == None;
    ghost var left, right := Payloads(t.left), Payloads(t.right);
    if isNew {
      root.payload := Some(id);
    }
    assert Rep(root, t) && Payloads(t.left) == left && Payloads(t.right) == right;
  }
}
