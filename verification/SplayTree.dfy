/** The shape computed by the top-down splay step, as a function on trees.
    The step looks a key up, inserts a new value when the key is absent, and
    leaves the key at the root. */
module SplayTree {
  import opened Options

  datatype Tree<V> = Leaf | Node(left: Tree<V>, key: int, value: V, right: Tree<V>)

  /** An assembly tree under construction. `Hook` is the node whose inner link is
      still open, `kept` its finished subtree and `outer` the nodes above it. */
  datatype Spine<V> = Bare | Hook(outer: Spine<V>, key: int, value: V, kept: Tree<V>)

  datatype Entry<V> = Entry(key: int, value: V)

  function Inorder<V>(t: Tree<V>): seq<Entry<V>> {
    match t
    case Leaf => []
    case Node(l, k, v, r) => Inorder(l) + [Entry(k, v)] + Inorder(r)
  }

  predicate Sorted<V>(s: seq<Entry<V>>) {
    forall i, j :: 0 <= i < j < |s| ==> s[i].key < s[j].key
  }

  /** A search tree: the in-order keys are strictly increasing. */
  predicate IsSearchTree<V>(t: Tree<V>) {
    Sorted(Inorder(t))
  }

  function Single<V>(key: int, value: V): Tree<V> {
    Node(Leaf, key, value, Leaf)
  }

  /** The child that the descent moves to: a missing one is replaced by the new node. */
  function OrNew<V>(t: Tree<V>, key: int, added: V): Tree<V> {
    if t.Leaf? then Single(key, added) else t
  }

  /** Closes the assembly of keys below the sought one: `hole` goes to the open right link. */
  function CloseLeft<V>(spine: Spine<V>, hole: Tree<V>): Tree<V> {
    match spine
    case Bare => hole
    case Hook(outer, k, v, kept) => CloseLeft(outer, Node(kept, k, v, hole))
  }

  /** Closes the assembly of keys above the sought one: `hole` goes to the open left link. */
  function CloseRight<V>(spine: Spine<V>, hole: Tree<V>): Tree<V> {
    match spine
    case Bare => hole
    case Hook(outer, k, v, kept) => CloseRight(outer, Node(hole, k, v, kept))
  }

  function Height<V>(t: Tree<V>): nat {
    match t
    case Leaf => 0
    case Node(l, _, _, r) => 1 + if Height(l) < Height(r) then Height(r) else Height(l)
  }

  function Distance<V>(t: Tree<V>, key: int): nat {
    if t.Leaf? || t.key == key then 0 else 1 + Height(t)
  }

  /** Every move of the descent, over one level or two, gets closer to the key. */
  lemma Shorter<V>(t: Tree<V>, key: int)
    requires t.Node? && t.key != key
    ensures t.left.Node? ==> Distance(t.left, key) < Distance(t, key) && Distance(t.left.left, key) < Distance(t, key)
    ensures t.right.Node? ==> Distance(t.right, key) < Distance(t, key) && Distance(t.right.right, key) < Distance(t, key)
  {
    if t.left.Node? {
      assert Height(t.left.left) < Height(t.left);
    }
    if t.right.Node? {
      assert Height(t.right.right) < Height(t.right);
    }
  }

  /** One pass of the descent loop: compare, insert if needed, rotate on a zig-zig, hook. */
  function Descend<V>(t: Tree<V>, key: int, added: V, l: Spine<V>, r: Spine<V>): Tree<V>
    requires t.Node?
    decreases Distance(t, key)
  {
    if key == t.key then
      Node(CloseLeft(l, t.left), key, t.value, CloseRight(r, t.right))
    else if key < t.key then
      var child := OrNew(t.left, key, added);
      if key < child.key then
        Shorter(t, key);
        Descend(OrNew(child.left, key, added), key, added, l,
                Hook(r, child.key, child.value, Node(child.right, t.key, t.value, t.right)))
      else
        Descend(child, key, added, l, Hook(r, t.key, t.value, t.right))
    else
      var child := OrNew(t.right, key, added);
      if key > child.key then
        Shorter(t, key);
        Descend(OrNew(child.right, key, added), key, added,
                Hook(l, child.key, child.value, Node(t.left, t.key, t.value, child.left)), r)
      else
        Descend(child, key, added, Hook(l, t.key, t.value, t.left), r)
  }

  function Splay<V>(t: Tree<V>, key: int, added: V): Tree<V> {
    if t.Leaf? then Single(key, added) else Descend(t, key, added, Bare, Bare)
  }

  /** Looks a key up among payloads and registers `id` under it when it has none yet. */
  function Enter(t: Tree<Option<nat>>, key: int, id: nat): Tree<Option<nat>> {
    var t' := Splay(t, key, None);
    if t'.Node? && t'.value == None then t'.(value := Some(id)) else t'
  }

  /** The reference: insertion into a sorted association list, keeping a present entry. */
  function Insert<V>(s: seq<Entry<V>>, key: int, added: V): seq<Entry<V>> {
    if s == [] || key < s[0].key then [Entry(key, added)] + s
    else if s[0].key == key then s
    else [s[0]] + Insert(s[1..], key, added)
  }

  /** The entries already moved to the left assembly, in order. */
  function Below<V>(spine: Spine<V>): seq<Entry<V>> {
    match spine
    case Bare => []
    case Hook(outer, k, v, kept) => Below(outer) + Inorder(kept) + [Entry(k, v)]
  }

  /** The entries already moved to the right assembly, in order. */
  function Above<V>(spine: Spine<V>): seq<Entry<V>> {
    match spine
    case Bare => []
    case Hook(outer, k, v, kept) => [Entry(k, v)] + Inorder(kept) + Above(outer)
  }

  // ---- insertion splits at a pivot ----

  lemma {:induction false} InsertBelow<V>(a: seq<Entry<V>>, x: Entry<V>, b: seq<Entry<V>>, key: int, added: V)
    requires Sorted(a + [x] + b) && key < x.key
    ensures Insert(a + [x] + b, key, added) == Insert(a, key, added) + [x] + b
  {
    var s := a + [x] + b;
    if a == [] {
      assert s == [x] + b;
    } else {
      assert s[0] == a[0] && s[1..] == a[1..] + [x] + b;
      if a[0].key < key {
        InsertBelow(a[1..], x, b, key, added);
      }
    }
  }

  lemma {:induction false} InsertAbove<V>(a: seq<Entry<V>>, x: Entry<V>, b: seq<Entry<V>>, key: int, added: V)
    requires Sorted(a + [x] + b) && x.key < key
    ensures Insert(a + [x] + b, key, added) == a + [x] + Insert(b, key, added)
  {
    var s := a + [x] + b;
    if a == [] {
      assert s == [x] + b && s[1..] == b;
    } else {
      assert s[0] == a[0] && s[1..] == a[1..] + [x] + b;
      assert s[0].key < s[|a|].key;
      InsertAbove(a[1..], x, b, key, added);
    }
  }

  lemma {:induction false} InsertPresent<V>(a: seq<Entry<V>>, x: Entry<V>, b: seq<Entry<V>>, added: V)
    requires Sorted(a + [x] + b)
    ensures Insert(a + [x] + b, x.key, added) == a + [x] + b
  {
    var s := a + [x] + b;
    if a != [] {
      assert s[0] == a[0] && s[1..] == a[1..] + [x] + b;
      assert s[0].key < s[|a|].key;
      InsertPresent(a[1..], x, b, added);
    } else {
      assert s[0] == x;
    }
  }

  // ---- closing the assemblies keeps the order ----

  lemma {:induction false} CloseLeftInorder<V>(spine: Spine<V>, hole: Tree<V>)
    ensures Inorder(CloseLeft(spine, hole)) == Below(spine) + Inorder(hole)
    decreases spine
  {
    match spine
    case Bare =>
    case Hook(outer, k, v, kept) => CloseLeftInorder(outer, Node(kept, k, v, hole));
  }

  lemma {:induction false} CloseRightInorder<V>(spine: Spine<V>, hole: Tree<V>)
    ensures Inorder(CloseRight(spine, hole)) == Inorder(hole) + Above(spine)
    decreases spine
  {
    match spine
    case Bare =>
    case Hook(outer, k, v, kept) => CloseRightInorder(outer, Node(hole, k, v, kept));
  }

  // ---- the descent ----

  lemma SortedParts<V>(t: Tree<V>)
    requires t.Node? && IsSearchTree(t)
    ensures IsSearchTree(t.left) && IsSearchTree(t.right)
    ensures t.left.Node? ==> t.left.key < t.key
    ensures t.right.Node? ==> t.key < t.right.key
  {
    var a, b := Inorder(t.left), Inorder(t.right);
    var s := Inorder(t);
    assert forall i :: 0 <= i < |a| ==> a[i] == s[i];
    assert forall i :: 0 <= i < |b| ==> b[i] == s[|a| + 1 + i];
    assert s[|a|].key == t.key;
    if t.left.Node? {
      assert a[|Inorder(t.left.left)|].key == t.left.key;
    }
    if t.right.Node? {
      assert b[|Inorder(t.right.left)|].key == t.right.key;
    }
  }

  lemma InsertSingle<V>(t: Tree<V>, key: int, added: V)
    requires IsSearchTree(t)
    ensures IsSearchTree(OrNew(t, key, added))
    ensures Insert(Inorder(OrNew(t, key, added)), key, added) == Insert(Inorder(t), key, added)
  {
    if t.Leaf? {
      assert Inorder(Single(key, added)) == [Entry(key, added)];
    }
  }

  /** Insertion below (above) the root of a search tree happens in its left (right) subtree. */
  lemma InsertSide<V>(t: Tree<V>, key: int, added: V)
    requires t.Node? && IsSearchTree(t)
    ensures key < t.key ==> Insert(Inorder(t), key, added)
                            == Insert(Inorder(t.left), key, added) + [Entry(t.key, t.value)] + Inorder(t.right)
    ensures key > t.key ==> Insert(Inorder(t), key, added)
                            == Inorder(t.left) + [Entry(t.key, t.value)] + Insert(Inorder(t.right), key, added)
    ensures key == t.key ==> Insert(Inorder(t), key, added) == Inorder(t)
  {
    var a, x, b := Inorder(t.left), Entry(t.key, t.value), Inorder(t.right);
    if key < t.key {
      InsertBelow(a, x, b, key, added);
    } else if key > t.key {
      InsertAbove(a, x, b, key, added);
    } else {
      InsertPresent(a, x, b, added);
    }
  }

  lemma Regroup<T>(a: seq<T>, b: seq<T>, c: seq<T>, d: seq<T>)
    ensures (a + b + c) + d == a + (b + c + d)
    ensures a + (b + c + d) == (a + b + c) + d
    ensures (a + b) + c == a + (b + c)
  {
  }

  lemma RegroupAround<T>(a: seq<T>, b: seq<T>, c: seq<T>, d: seq<T>, e: seq<T>)
    ensures (a + b) + c + (d + e) == a + ((b + c + d) + e)
  {
  }

  /** Hooking the root above the sought key moves its entry and its right part across. */
  lemma HookAbove<V>(t: Tree<V>, key: int, added: V, r: Spine<V>)
    requires t.Node? && IsSearchTree(t) && key < t.key
    ensures var child := OrNew(t.left, key, added);
            && IsSearchTree(child)
            && Insert(Inorder(t), key, added) + Above(r)
               == Insert(Inorder(child), key, added) + Above(Hook(r, t.key, t.value, t.right))
  {
    InsertSide(t, key, added);
    SortedParts(t);
    InsertSingle(t.left, key, added);
    Regroup(Insert(Inorder(t.left), key, added), [Entry(t.key, t.value)], Inorder(t.right), Above(r));
  }

  lemma HookBelow<V>(t: Tree<V>, key: int, added: V, l: Spine<V>)
    requires t.Node? && IsSearchTree(t) && key > t.key
    ensures var child := OrNew(t.right, key, added);
            && IsSearchTree(child)
            && Below(l) + Insert(Inorder(t), key, added)
               == Below(Hook(l, t.key, t.value, t.left)) + Insert(Inorder(child), key, added)
  {
    InsertSide(t, key, added);
    SortedParts(t);
    InsertSingle(t.right, key, added);
    Regroup(Below(l), Inorder(t.left), [Entry(t.key, t.value)], Insert(Inorder(t.right), key, added));
  }

  /** A rotation hooks two nodes as one: the entries met are those of two plain hooks. */
  lemma RotateAbove<V>(t: Tree<V>, child: Tree<V>, r: Spine<V>)
    requires t.Node? && child.Node?
    ensures Above(Hook(r, child.key, child.value, Node(child.right, t.key, t.value, t.right)))
            == Above(Hook(Hook(r, t.key, t.value, t.right), child.key, child.value, child.right))
  {
  }

  lemma RotateBelow<V>(t: Tree<V>, child: Tree<V>, l: Spine<V>)
    requires t.Node? && child.Node?
    ensures Below(Hook(l, child.key, child.value, Node(t.left, t.key, t.value, child.left)))
            == Below(Hook(Hook(l, t.key, t.value, t.left), child.key, child.value, child.left))
  {
  }

  /** The order the finished tree must have: both assemblies around the open insertion. */
  function Pending<V>(t: Tree<V>, key: int, added: V, l: Spine<V>, r: Spine<V>): seq<Entry<V>> {
    Below(l) + (Insert(Inorder(t), key, added) + Above(r))
  }

  lemma PendingBelow<V>(t: Tree<V>, key: int, added: V, l: Spine<V>, r: Spine<V>)
    requires t.Node? && IsSearchTree(t) && key > t.key
    ensures var child := OrNew(t.right, key, added);
            IsSearchTree(child) && Pending(t, key, added, l, r) == Pending(child, key, added, Hook(l, t.key, t.value, t.left), r)
  {
    var child := OrNew(t.right, key, added);
    HookBelow(t, key, added, l);
    Regroup(Below(l), Insert(Inorder(t), key, added), Above(r), []);
    Regroup(Below(Hook(l, t.key, t.value, t.left)), Insert(Inorder(child), key, added), Above(r), []);
  }

  /** What every iteration of the descent preserves: the finished left part, the
      insertion into what is left to search, and the finished right part. */
  lemma {:induction false} DescendInorder<V>(t: Tree<V>, key: int, added: V, l: Spine<V>, r: Spine<V>)
    requires t.Node? && IsSearchTree(t)
    ensures Inorder(Descend(t, key, added, l, r)) == Pending(t, key, added, l, r)
    ensures Descend(t, key, added, l, r).Node? && Descend(t, key, added, l, r).key == key
    decreases Distance(t, key)
  {
    if key == t.key {
      DescendStops(t, added, l, r);
    } else if key < t.key {
      var child := OrNew(t.left, key, added);
      HookAbove(t, key, added, r);
      if key < child.key {
        Shorter(t, key);
        HookAbove(child, key, added, Hook(r, t.key, t.value, t.right));
        RotateAbove(t, child, r);
        var hook := Hook(r, child.key, child.value, Node(child.right, t.key, t.value, t.right));
        DescendInorder(OrNew(child.left, key, added), key, added, l, hook);
      } else {
        DescendInorder(child, key, added, l, Hook(r, t.key, t.value, t.right));
      }
    } else {
      var child := OrNew(t.right, key, added);
      PendingBelow(t, key, added, l, r);
      if key > child.key {
        Shorter(t, key);
        PendingBelow(child, key, added, Hook(l, t.key, t.value, t.left), r);
        RotateBelow(t, child, l);
        var hook := Hook(l, child.key, child.value, Node(t.left, t.key, t.value, child.left));
        DescendInorder(OrNew(child.right, key, added), key, added, hook, r);
      } else {
        DescendInorder(child, key, added, Hook(l, t.key, t.value, t.left), r);
      }
    }
  }

  lemma DescendStops<V>(t: Tree<V>, added: V, l: Spine<V>, r: Spine<V>)
    requires t.Node? && IsSearchTree(t)
    ensures Inorder(Descend(t, t.key, added, l, r)) == Pending(t, t.key, added, l, r)
  {
    InsertSide(t, t.key, added);
    CloseLeftInorder(l, t.left);
    CloseRightInorder(r, t.right);
    var a, x, b := Inorder(t.left), [Entry(t.key, t.value)], Inorder(t.right);
    RegroupAround(Below(l), a, x, b, Above(r));
  }

  lemma {:induction false} InsertSorted<V>(s: seq<Entry<V>>, key: int, added: V)
    requires Sorted(s)
    ensures Sorted(Insert(s, key, added))
    ensures forall e :: e in s ==> e in Insert(s, key, added)
    ensures forall e :: e in Insert(s, key, added) ==> e in s || e == Entry(key, added)
    ensures exists e :: e in Insert(s, key, added) && e.key == key
    ensures Entry(key, added) in Insert(s, key, added) || (exists e :: e in s && e.key == key)
  {
    var result := Insert(s, key, added);
    if s == [] || key < s[0].key {
      assert result[0] == Entry(key, added) && result[1..] == s;
    } else if s[0].key == key {
      assert s[0] in s;
    } else {
      InsertSorted(s[1..], key, added);
      var rest := Insert(s[1..], key, added);
      assert result == [s[0]] + rest;
      forall e | e in rest ensures s[0].key < e.key {
        if e in s[1..] {
          var i :| 0 <= i < |s[1..]| && s[1..][i] == e;
          assert s[i + 1] == e;
        }
      }
      assert forall e :: e in s ==> e == s[0] || e in s[1..];
    }
  }

  /** The splay step is a map operation: on every search tree the result is a search tree
      with the key at its root, whose entries are the old ones plus, only when the key was
      absent, the new one. */
  lemma SplayIsInsert<V>(t: Tree<V>, key: int, added: V)
    requires IsSearchTree(t)
    ensures var t' := Splay(t, key, added);
            && t'.Node? && t'.key == key
            && IsSearchTree(t')
            && Inorder(t') == Insert(Inorder(t), key, added)
  {
    if t.Node? {
      DescendInorder(t, key, added, Bare, Bare);
    }
    InsertSorted(Inorder(t), key, added);
  }

  lemma SortedUnique<V>(s: seq<Entry<V>>, a: Entry<V>, b: Entry<V>)
    requires Sorted(s) && a in s && b in s && a.key == b.key
    ensures a == b
  {
    var i :| 0 <= i < |s| && s[i] == a;
    var j :| 0 <= j < |s| && s[j] == b;
    if i < j { assert s[i].key < s[j].key; }
    if j < i { assert s[j].key < s[i].key; }
  }

  /** The root carries the added value iff no entry had the key; otherwise it carries the
      value that entry had. This is what lets a caller read "was it new?" off the payload. */
  lemma SplayRootValue<V>(t: Tree<V>, key: int, added: V)
    requires IsSearchTree(t)
    requires forall e :: e in Inorder(t) ==> e.value != added
    ensures var t' := Splay(t, key, added);
            && t'.Node?
            && (t'.value == added <==> forall e :: e in Inorder(t) ==> e.key != key)
            && (t'.value != added ==> Entry(key, t'.value) in Inorder(t))
  {
    SplayIsInsert(t, key, added);
    var t' := Splay(t, key, added);
    InsertSorted(Inorder(t), key, added);
    assert Inorder(t')[|Inorder(t'.left)|] == Entry(key, t'.value);
    assert Entry(key, t'.value) in Inorder(t');
    if e :| e in Inorder(t) && e.key == key {
      SortedUnique(Inorder(t'), e, Entry(key, t'.value));
    }
  }

  /** Replacing the value at one position of a sorted list. */
  lemma UpdateSorted<V>(s: seq<Entry<V>>, n: nat, v: V)
    requires Sorted(s) && n < |s|
    ensures var s' := s[n := Entry(s[n].key, v)];
            && Sorted(s')
            && (forall e <- s :: e in s' || e == s[n])
            && (forall e <- s' :: e == s'[n] || (e in s && e.key != s[n].key))
  {
    var s' := s[n := Entry(s[n].key, v)];
    assert forall i :: 0 <= i < |s| ==> s'[i].key == s[i].key;
    forall e <- s ensures e in s' || e == s[n] {
      var i :| 0 <= i < |s| && s[i] == e;
      assert i == n || s'[i] == e;
    }
    forall e <- s' ensures e == s'[n] || (e in s && e.key != s[n].key) {
      var i :| 0 <= i < |s'| && s'[i] == e;
      if i < n { assert s[i].key < s[n].key; }
      if n < i { assert s[n].key < s[i].key; }
    }
  }

  lemma InorderUpdate<V>(t: Tree<V>, v: V)
    requires t.Node?
    ensures Inorder(t)[|Inorder(t.left)|] == Entry(t.key, t.value)
    ensures Inorder(t.(value := v)) == Inorder(t)[|Inorder(t.left)| := Entry(t.key, v)]
  {
  }

  /** `Enter` is insert-if-absent on payload maps in which every present key has a payload. */
  lemma EnterIsMap(t: Tree<Option<nat>>, key: int, id: nat)
    requires IsSearchTree(t)
    requires forall e <- Inorder(t) :: e.value.Some?
    ensures var t' := Enter(t, key, id);
            && t'.Node? && t'.key == key && t'.value.Some? && IsSearchTree(t')
            && Splay(t, key, None).Node?
            && (Splay(t, key, None).value == None <==> forall e <- Inorder(t) :: e.key != key)
            && (Splay(t, key, None).value == None ==> t'.value == Some(id))
            && (Splay(t, key, None).value != None ==> Entry(key, t'.value) in Inorder(t))
            && (forall e <- Inorder(t) :: e in Inorder(t'))
            && (forall e <- Inorder(t') :: e in Inorder(t) || e == Entry(key, t'.value))
            && Entry(key, t'.value) in Inorder(t')
  {
    SplayRootValue(t, key, None);
    SplayIsInsert(t, key, None);
    InsertSorted(Inorder(t), key, None);
    var found, t' := Splay(t, key, None), Enter(t, key, id);
    UpdateSorted(Inorder(found), |Inorder(found.left)|, t'.value);
    InorderUpdate(found, t'.value);
    InorderUpdate(t', t'.value);
  }

  // ---- the step does not look at values ----

  function MapTree<V, W>(t: Tree<V>, f: V -> W): Tree<W> {
    match t
    case Leaf => Leaf
    case Node(l, k, v, r) => Node(MapTree(l, f), k, f(v), MapTree(r, f))
  }

  function MapSpine<V, W>(s: Spine<V>, f: V -> W): Spine<W> {
    match s
    case Bare => Bare
    case Hook(outer, k, v, kept) => Hook(MapSpine(outer, f), k, f(v), MapTree(kept, f))
  }

  lemma {:induction false} MapClose<V, W>(s: Spine<V>, hole: Tree<V>, f: V -> W)
    ensures MapTree(CloseLeft(s, hole), f) == CloseLeft(MapSpine(s, f), MapTree(hole, f))
    ensures MapTree(CloseRight(s, hole), f) == CloseRight(MapSpine(s, f), MapTree(hole, f))
    decreases s
  {
    match s
    case Bare =>
    case Hook(outer, k, v, kept) =>
      MapClose(outer, Node(kept, k, v, hole), f);
      MapClose(outer, Node(hole, k, v, kept), f);
  }

  lemma {:induction false} MapDescend<V, W>(t: Tree<V>, key: int, added: V, l: Spine<V>, r: Spine<V>, f: V -> W)
    requires t.Node?
    ensures MapTree(Descend(t, key, added, l, r), f)
            == Descend(MapTree(t, f), key, f(added), MapSpine(l, f), MapSpine(r, f))
    decreases Distance(t, key)
  {
    if key == t.key {
      MapClose(l, t.left, f);
      MapClose(r, t.right, f);
    } else if key < t.key {
      var child := OrNew(t.left, key, added);
      if key < child.key {
        Shorter(t, key);
        var hook := Hook(r, child.key, child.value, Node(child.right, t.key, t.value, t.right));
        MapDescend(OrNew(child.left, key, added), key, added, l, hook, f);
      } else {
        MapDescend(child, key, added, l, Hook(r, t.key, t.value, t.right), f);
      }
    } else {
      var child := OrNew(t.right, key, added);
      if key > child.key {
        Shorter(t, key);
        var hook := Hook(l, child.key, child.value, Node(t.left, t.key, t.value, child.left));
        MapDescend(OrNew(child.right, key, added), key, added, hook, r, f);
      } else {
        MapDescend(child, key, added, Hook(l, t.key, t.value, t.left), r, f);
      }
    }
  }

  /** Reading payloads off the nodes commutes with the step, so the node-level tree of the
      heap and the payload-level tree of the calling context tree stay in step. */
  lemma SplayNatural<V, W>(t: Tree<V>, key: int, added: V, f: V -> W)
    ensures MapTree(Splay(t, key, added), f) == Splay(MapTree(t, f), key, f(added))
  {
    if t.Node? {
      MapDescend(t, key, added, Bare, Bare, f);
    }
  }
}
