/** The order in which the viewer's trie is written: every node once, after its parent. */
module FmtWriter {
  import opened FmtTrie

  /** The subtrees of the listed nodes share no node. */
  ghost predicate Separate(ns: seq<FmtNode>, list: seq<nat>)
    requires Linked(ns)
  {
    && (forall k :: 0 <= k < |list| ==> list[k] < |ns|)
    && forall k, l, i :: 0 <= k < l < |list| && 0 <= i < |ns| ==> !(Under(ns, list[k], i) && Under(ns, list[l], i))
  }

  predicate NoRepeats(s: seq<nat>) {
    forall k, l :: 0 <= k < l < |s| ==> s[k] != s[l]
  }

  predicate ParentIn(ns: seq<FmtNode>, i: nat, earlier: seq<nat>) {
    i < |ns| && ns[i].parent.Some? && ns[i].parent.value in earlier
  }

  /** Apart from the listed nodes, every node comes after its parent. */
  predicate ParentsFirst(ns: seq<FmtNode>, list: seq<nat>, out: seq<nat>) {
    forall k :: 0 <= k < |out| ==> out[k] in list || ParentIn(ns, out[k], out[..k])
  }

  /** `i` lies below one of the first `n` listed nodes. */
  ghost predicate BelowSome(ns: seq<FmtNode>, list: seq<nat>, n: nat, i: nat)
    requires Linked(ns) && n <= |list| && i < |ns| && forall k :: 0 <= k < |list| ==> list[k] < |ns|
  {
    exists k :: 0 <= k < n && Under(ns, list[k], i) && i != list[k]
  }

  /** The listed nodes are written, and everything below the first `n` of them. */
  ghost predicate Written(ns: seq<FmtNode>, list: seq<nat>, n: nat, out: seq<nat>)
    requires Linked(ns) && Separate(ns, list) && n <= |list|
  {
    && list <= out && NoRepeats(out) && ParentsFirst(ns, list, out)
    && forall i: nat :: i in out <==> i < |ns| && (i in list || BelowSome(ns, list, n, i))
  }

  lemma ChildrenSeparate(ns: seq<FmtNode>, r: nat)
    requires Linked(ns) && r < |ns|
    ensures Separate(ns, ns[r].children)
  {
    assert ChildrenOk(ns, r);
    forall k, l, i | 0 <= k < l < |ns[r].children| && 0 <= i < |ns|
      ensures !(Under(ns, ns[r].children[k], i) && Under(ns, ns[r].children[l], i))
    {
      UnderNext(ns, r, l, i);
      if Under(ns, ns[r].children[k], i) {
        assert Under(ns, ns[r].children[..l][k], i);
      }
    }
  }

  lemma SeparateDistinct(ns: seq<FmtNode>, list: seq<nat>)
    requires Linked(ns) && Separate(ns, list)
    ensures NoRepeats(list)
    ensures forall i, k, l :: 0 <= i < |ns| && 0 <= k < |list| && 0 <= l < |list| && Under(ns, list[k], i) && i == list[l] ==>
              k == l
  {
    forall k, l | 0 <= k < l < |list| ensures list[k] != list[l] {
      assert Under(ns, list[k], list[k]);
    }
    forall i, k, l | 0 <= i < |ns| && 0 <= k < |list| && 0 <= l < |list| && Under(ns, list[k], i) && i == list[l] ensures k == l {
      assert Under(ns, list[l], i);
    }
  }

  lemma ListWritten(ns: seq<FmtNode>, list: seq<nat>)
    requires Linked(ns) && Separate(ns, list)
    ensures Written(ns, list, 0, list)
  {
    SeparateDistinct(ns, list);
  }

  /** What a written list of siblings holds: exactly the nodes of their subtrees. */
  lemma AllWritten(ns: seq<FmtNode>, list: seq<nat>, out: seq<nat>, i: nat)
    requires Linked(ns) && Separate(ns, list) && Written(ns, list, |list|, out)
    ensures i in out <==> i < |ns| && UnderSome(ns, list, i)
  {
    if i < |ns| && UnderSome(ns, list, i) {
      var k :| 0 <= k < |list| && Under(ns, list[k], i);
      assert i == list[k] || BelowSome(ns, list, |list|, i);
    }
    if i in list {
      var k :| 0 <= k < |list| && list[k] == i;
      assert Under(ns, list[k], i);
    }
  }

  lemma JoinParents(ns: seq<FmtNode>, list: seq<nat>, out: seq<nat>, r: nat, rest: seq<nat>)
    requires Linked(ns) && r < |ns| && r in out && ParentsFirst(ns, list, out)
    requires ParentsFirst(ns, ns[r].children, rest)
    ensures ParentsFirst(ns, list, out + rest)
  {
    var both := out + rest;
    assert ChildrenOk(ns, r);
    forall k | 0 <= k < |both| ensures both[k] in list || ParentIn(ns, both[k], both[..k]) {
      if k < |out| {
        assert both[..k] == out[..k];
      } else {
        assert both[..k] == out + rest[..k - |out|];
        assert rest[k - |out|] in ns[r].children || ParentIn(ns, rest[k - |out|], rest[..k - |out|]);
      }
    }
  }

  lemma NextBelow(ns: seq<FmtNode>, list: seq<nat>, n: nat, i: nat)
    requires Linked(ns) && Separate(ns, list) && n < |list| && i < |ns|
    ensures forall k :: 0 <= k < |ns[list[n]].children| ==> ns[list[n]].children[k] < |ns|
    ensures BelowSome(ns, list, n + 1, i) <==> BelowSome(ns, list, n, i) || UnderSome(ns, ns[list[n]].children, i)
    ensures UnderSome(ns, ns[list[n]].children, i) ==> i !in list && !BelowSome(ns, list, n, i)
  {
    UnderChildren(ns, list[n], i);
    SeparateDistinct(ns, list);
  }

  lemma WrittenNext(ns: seq<FmtNode>, list: seq<nat>, n: nat, out: seq<nat>, rest: seq<nat>)
    requires Linked(ns) && Separate(ns, list) && n < |list| && Written(ns, list, n, out)
    requires Separate(ns, ns[list[n]].children)
    requires Written(ns, ns[list[n]].children, |ns[list[n]].children|, rest)
    ensures Written(ns, list, n + 1, out + rest)
  {
    var both := out + rest;
    assert list[n] in out;
    JoinParents(ns, list, out, list[n], rest);
    forall i: nat
      ensures i in both <==> i < |ns| && (i in list || BelowSome(ns, list, n + 1, i))
      ensures !(i in out && i in rest)
    {
      AllWritten(ns, ns[list[n]].children, rest, i);
      if i < |ns| {
        NextBelow(ns, list, n, i);
      }
    }
    forall k, l | 0 <= k < l < |both| ensures both[k] != both[l] {
      if k < |out| <= l {
        assert both[k] in out && both[l] in rest;
      }
    }
  }

  /** `tranverseNewCCT`: the siblings first, then the children of each. */
  method TraverseNewCct(ns: seq<FmtNode>, list: seq<nat>, ghost lo: nat) returns (out: seq<nat>)
    requires Linked(ns) && Separate(ns, list) && forall k :: 0 <= k < |list| ==> lo <= list[k]
    ensures Written(ns, list, |list|, out)
    decreases |ns| - lo
  {
    ListWritten(ns, list);
    if |list| == 0 {
      return [];
    }
    out := [];
    for i := 0 to |list|
      invariant out == list[..i]
    {
      out := out + [list[i]];
    }
    for i := 0 to |list|
      invariant Written(ns, list, i, out)
    {
      var children := ns[list[i]].children;
      ChildrenSeparate(ns, list[i]);
      if |children| != 0 {
        forall k | 0 <= k < |children| ensures list[i] < children[k] {
          ChildBounds(ns, list[i], k);
        }
        var rest := TraverseNewCct(ns, children, list[i] + 1);
        WrittenNext(ns, list, i, out, rest);
        out := out + rest;
      } else {
        ListWritten(ns, children);
        WrittenNext(ns, list, i, out, []);
        assert out + [] == out;
      }
    }
  }

  /** One record for each node, the root's first, and every other one after its parent's. IDs tell the
      nodes apart, so each record's parent ID leads to its parent's record alone. */
  ghost predicate WholeFile(ns: seq<FmtNode>, out: seq<nat>) {
    && |out| == |ns| > 0 && NoRepeats(out) && (forall i: nat :: i in out <==> i < |ns|)
    && out[0] == 0 && (forall k :: 0 < k < |out| ==> ParentIn(ns, out[k], out[..k]))
    && IdsOk(ns, Abs(ns[|ns| - 1].id))
  }

  /** The whole file: the thread's node counter, then one record for each node. */
  method WriteCct(t: Trie, nodeCount: nat) returns (count: nat, out: seq<nat>)
    requires t.Valid()
    ensures count == nodeCount && WholeFile(t.nodes, out)
  {
    count := nodeCount;
    out := TraverseNewCct(t.nodes, [0], 0);
    forall i: nat ensures i in out <==> i < |t.nodes| {
      AllWritten(t.nodes, [0], out, i);
      if i < |t.nodes| {
        assert Path(t.nodes, 0) <= Path(t.nodes, i);
        assert Under(t.nodes, [0][0], i);
      }
    }
    AllNodesOnce(out, |t.nodes|);
    assert out[0] == [0][0];
  }

  lemma {:induction false} AllNodesOnce(out: seq<nat>, n: nat)
    requires NoRepeats(out) && forall i: nat :: i in out <==> i < n
    ensures |out| == n
  {
    if n > 0 {
      assert n - 1 in out;
      var k :| 0 <= k < |out| && out[k] == n - 1;
      var rest := out[..k] + out[k + 1..];
      forall i: nat ensures i in rest <==> i < n - 1 {
        if i in rest {
          var l :| 0 <= l < |rest| && rest[l] == i;
          assert out[if l < k then l else l + 1] == i;
          assert i in out;
        }
        if i < n - 1 {
          assert i in out;
          var l :| 0 <= l < |out| && out[l] == i;
          assert rest[if l < k then l else l - 1] == i;
        }
      }
      AllNodesOnce(rest, n - 1);
    } else {
      HeadIsIn(out);
    }
  }

  lemma HeadIsIn(s: seq<nat>)
    ensures |s| > 0 ==> s[0] in s
  {
  }
}
