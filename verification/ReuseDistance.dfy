/** The reuse-distance client: sampled memory accesses of one thread, and the counts and
    distances of the far reuses among them. */
module ReuseDistance {

  const UNITE_NUM: nat := 1000000000
  const SAMPLE_NUM: nat := 100000000
  const REUSED_THRES: nat := 8192
  const REUSED_PRINT_MIN_COUNT: nat := 1000
  const TWO32: nat := 0x1_0000_0000
  const TWO64: nat := 0x1_0000_0000_0000_0000

  /** What the data-centric lookup says about an address at the time of the access. */
  datatype DataObject = Dynamic(pathHandle: nat) | Static(symName: nat) | Other

  datatype Access = Access(handle: nat, addr: int, data: DataObject)

  datatype UseNode = UseNode(create: int, use: nat, lastIdx: nat, run: nat)

  datatype ReuseNode = ReuseNode(create: int, distance: nat, count: nat)

  // ---- the definition, on the stream of accesses so far ----

  predicate Sampled(n: nat) {
    n % UNITE_NUM <= SAMPLE_NUM
  }

  function Window(n: nat): nat {
    n / UNITE_NUM
  }

  /** The number of the latest sampled access to an address; accesses count from 1, 0 is none. */
  function Last(s: seq<Access>, addr: int): (m: nat)
    ensures m <= |s|
    ensures m > 0 ==> s[m - 1].addr == addr && Sampled(m)
    ensures forall k :: m < k <= |s| && Sampled(k) ==> s[k - 1].addr != addr
  {
    if s == [] then 0
    else if Sampled(|s|) && s[|s| - 1].addr == addr then |s|
    else Last(s[..|s| - 1], addr)
  }

  /** For the last access of the stream: the sampled access to the same address before it. */
  function Previous(s: seq<Access>): (m: nat)
    requires s != []
    ensures m < |s|
  {
    Last(s[..|s| - 1], s[|s| - 1].addr)
  }

  predicate SameWindow(s: seq<Access>)
    requires s != []
  {
    Previous(s) > 0 && Window(Previous(s)) == Window(|s|)
  }

  predicate Far(s: seq<Access>)
    requires s != []
  {
    |s| - Previous(s) > REUSED_THRES
  }

  /** The last access is a sampled one whose previous sampled access to the same address is in
      the same window and more than the threshold away. */
  predicate IsReuse(s: seq<Access>) {
    s != [] && Sampled(|s|) && SameWindow(s) && Far(s)
  }

  function CreateHandle(d: DataObject): int {
    match d
    case Dynamic(h) => h as int
    case Static(name) => -(name as int)
    case Other => 0
  }

  /** The creator recorded with the last access: looked up at a far reuse, but kept once it is a
      static object, and forgotten when a window ends. */
  function Creator(s: seq<Access>): int {
    if s == [] || !SameWindow(s) then 0 else
    var known := Creator(s[..Previous(s)]);
    if Far(s) && known >= 0 then CreateHandle(s[|s| - 1].data) else known
  }

  /** The `n`th access was a far reuse of the address of the last one, in the same window. */
  ghost predicate FarAt(s: seq<Access>, n: nat) {
    0 < n <= |s| && IsReuse(s[..n]) && s[n - 1].addr == s[|s| - 1].addr && Window(n) == Window(|s|)
  }

  lemma WindowOrder(a: nat, b: nat)
    requires a <= b
    ensures Window(a) <= Window(b)
  {
    assert a == Window(a) * UNITE_NUM + a % UNITE_NUM && b == Window(b) * UNITE_NUM + b % UNITE_NUM;
  }

  /** Such an access is the last one, or such for the stream up to the previous one of this address. */
  lemma FarBefore(s: seq<Access>, n: nat)
    requires s != [] && Sampled(|s|)
    ensures FarAt(s, n) <==> (n == |s| && IsReuse(s)) || (SameWindow(s) && FarAt(s[..Previous(s)], n))
  {
    var m := Previous(s);
    assert s[..|s|] == s;
    if FarAt(s, n) && n < |s| {
      assert s[..|s| - 1][n - 1] == s[n - 1] && Sampled(n);
      assert m >= n && s[..m][..n] == s[..n];
      WindowOrder(n, m);
      WindowOrder(m, |s|);
    }
    if SameWindow(s) && FarAt(s[..m], n) {
      assert s[..m][..n] == s[..n];
    }
  }

  /** The objects that the far reuses of this address found in this window. */
  ghost function AllFound(s: seq<Access>): set<DataObject> {
    set n | 0 < n <= |s| && FarAt(s, n) :: s[n - 1].data
  }

  /** The access `n` was such a reuse and found the object. */
  ghost predicate FarWith(s: seq<Access>, d: DataObject, n: nat) {
    FarAt(s, n) && s[n - 1].data == d
  }

  lemma FarWithBefore(s: seq<Access>, d: DataObject, n: nat)
    requires s != [] && Sampled(|s|)
    ensures FarWith(s, d, n)
            <==> (n == |s| && IsReuse(s) && s[|s| - 1].data == d) || (SameWindow(s) && FarWith(s[..Previous(s)], d, n))
  {
    FarBefore(s, n);
  }

  lemma FoundIff(s: seq<Access>, d: DataObject)
    ensures d in AllFound(s) <==> exists n :: 0 < n <= |s| && FarWith(s, d, n)
  {
    if n :| 0 < n <= |s| && FarWith(s, d, n) {
      assert FarAt(s, n);
    }
    if d in AllFound(s) {
      var n :| 0 < n <= |s| && FarAt(s, n) && s[n - 1].data == d;
      assert FarWith(s, d, n);
    }
  }

  lemma FoundBefore(s: seq<Access>, d: DataObject)
    requires s != [] && Sampled(|s|)
    ensures d in AllFound(s) <==> (IsReuse(s) && s[|s| - 1].data == d) || (SameWindow(s) && d in AllFound(s[..Previous(s)]))
  {
    FoundIff(s, d);
    FoundIff(s[..Previous(s)], d);
    FarWithBefore(s, d, |s|);
    forall n | 0 < n <= |s| ensures FarWith(s, d, n) <==> (n == |s| && IsReuse(s) && s[|s| - 1].data == d)
                                                            || (SameWindow(s) && FarWith(s[..Previous(s)], d, n)) {
      FarWithBefore(s, d, n);
    }
  }

  /** A creator is negative iff a static object was found, and then names one; a positive one is the
      allocation path of a dynamic object that was found. */
  ghost predicate Explained(found: set<DataObject>, c: int) {
    && (c < 0 <==> exists d :: d in found && d.Static? && d.symName > 0)
    && (c < 0 ==> Static(-c) in found)
    && (c > 0 ==> Dynamic(c) in found)
  }

  lemma ExplainedStep(found: set<DataObject>, known: int, d: DataObject)
    requires Explained(found, known)
    ensures Explained(found + {d}, if known >= 0 then CreateHandle(d) else known)
  {
    var all := found + {d};
    assert d in all;
    if e :| e in all && e.Static? && e.symName > 0 && known >= 0 {
      assert e == d;
    }
    if known < 0 {
      assert Static(-known) in all;
    }
  }

  /** Where a creator comes from: the objects found by the far reuses of this address in this window. While
      none of them is a static one, a far reuse has what it found itself. */
  lemma {:induction false} CreatorSource(s: seq<Access>)
    requires s != [] && Sampled(|s|)
    ensures Explained(AllFound(s), Creator(s))
    ensures IsReuse(s) && Creator(s) >= 0 ==>
              Creator(s) == match s[|s| - 1].data case Dynamic(h) => h as int case _ => 0
    decreases |s|
  {
    var m, d := Previous(s), s[|s| - 1].data;
    var before := if SameWindow(s) then AllFound(s[..m]) else {};
    forall e ensures e in AllFound(s) <==> e in before + if IsReuse(s) then {d} else {} {
      FoundBefore(s, e);
    }
    assert AllFound(s) == before + if IsReuse(s) then {d} else {};
    if SameWindow(s) {
      CreatorSource(s[..m]);
      ExplainedStep(before, Creator(s[..m]), d);
    }
  }

  datatype Triple = Triple(use: int, reuse: int, create: int)

  function TripleOf(s: seq<Access>): Triple
    requires IsReuse(s)
  {
    Triple(s[Previous(s) - 1].handle, s[|s| - 1].handle, Creator(s))
  }

  function Count(s: seq<Access>, t: Triple): nat {
    if s == [] then 0 else
    Count(s[..|s| - 1], t) + if IsReuse(s) && TripleOf(s) == t then 1 else 0
  }

  function Distance(s: seq<Access>, t: Triple): nat {
    if s == [] then 0 else
    Distance(s[..|s| - 1], t) + if IsReuse(s) && TripleOf(s) == t then |s| - Previous(s) else 0
  }

  /** The `n`th access was a far reuse with the triple. */
  ghost predicate Counted(s: seq<Access>, t: Triple, n: nat) {
    0 < n <= |s| && IsReuse(s[..n]) && TripleOf(s[..n]) == t
  }

  ghost function AllCounted(s: seq<Access>, t: Triple): set<nat> {
    set n: nat | 0 < n <= |s| && Counted(s, t, n)
  }

  lemma AllCountedStep(s: seq<Access>, t: Triple)
    requires s != []
    ensures |s| !in AllCounted(s[..|s| - 1], t)
    ensures AllCounted(s, t) == AllCounted(s[..|s| - 1], t) + if IsReuse(s) && TripleOf(s) == t then {|s|} else {}
  {
    var front := s[..|s| - 1];
    assert s[..|s|] == s;
    forall n: nat | 0 < n <= |front| ensures Counted(s, t, n) <==> Counted(front, t, n) {
      assert front[..n] == s[..n];
    }
  }

  /** The recursive count is the number of far reuses with the triple. */
  lemma {:induction false} CountIsCardinality(s: seq<Access>, t: Triple)
    ensures Count(s, t) == |AllCounted(s, t)|
  {
    if s != [] {
      CountIsCardinality(s[..|s| - 1], t);
      AllCountedStep(s, t);
    }
  }

  // ---- bounds ----

  /** A counted distance lies above the threshold and within one sample. */
  lemma ReuseBounds(s: seq<Access>)
    requires IsReuse(s)
    ensures REUSED_THRES < |s| - Previous(s) <= SAMPLE_NUM
  {
    var m, n := Previous(s), |s|;
    assert n == Window(n) * UNITE_NUM + n % UNITE_NUM;
    assert m == Window(m) * UNITE_NUM + m % UNITE_NUM;
  }

  lemma {:induction false} DistanceBounds(s: seq<Access>, t: Triple)
    ensures Count(s, t) * (REUSED_THRES + 1) <= Distance(s, t) <= Count(s, t) * SAMPLE_NUM
    ensures Count(s, t) <= |s|
  {
    if s != [] {
      DistanceBounds(s[..|s| - 1], t);
      if IsReuse(s) {
        ReuseBounds(s);
      }
    }
  }

  /** The filter on average distances never rejects an entry, and no sum wraps around. */
  lemma AverageIsFar(s: seq<Access>, t: Triple)
    requires |s| < TWO32 && Count(s, t) > 0
    ensures Distance(s, t) / Count(s, t) > REUSED_THRES
    ensures Distance(s, t) / Count(s, t) <= SAMPLE_NUM
    ensures Distance(s, t) < TWO64
  {
    DistanceBounds(s, t);
    var c, d := Count(s, t), Distance(s, t);
    QuotientBounds(c, d, REUSED_THRES + 1, SAMPLE_NUM);
    ProductBound(c, SAMPLE_NUM);
  }

  lemma QuotientBounds(c: nat, d: nat, lo: nat, hi: nat)
    requires c > 0 && c * lo <= d <= c * hi
    ensures lo <= d / c <= hi
  {
    var q, r := d / c, d % c;
    assert d == c * q + r && 0 <= r < c;
    MulMono(c, q + 1, lo);
    MulMono(c, q, lo);
    MulMono(c, hi + 1, q);
    MulMono(c, hi, q);
  }

  lemma MulMono(c: nat, a: nat, b: nat)
    ensures a <= b ==> c * a <= c * b
    ensures c * (a + 1) == c * a + c
  {
  }

  lemma ProductBound(c: nat, hi: nat)
    requires c < TWO32 && hi <= SAMPLE_NUM
    ensures c * hi < TWO64
  {
    assert c * hi <= TWO32 * hi <= TWO32 * SAMPLE_NUM;
  }

  // ---- packed pairs ----

  /** The 64-bit key of a use and its reuse. */
  function Pack(use: nat, reuse: nat): (p: nat)
    requires reuse < TWO32
    ensures p / TWO32 == use && p % TWO32 == reuse
  {
    PackParts(use, reuse);
    use * TWO32 + reuse
  }

  lemma PackParts(use: nat, reuse: nat)
    requires reuse < TWO32
    ensures (use * TWO32 + reuse) / TWO32 == use && (use * TWO32 + reuse) % TWO32 == reuse
  {
    var p := use * TWO32 + reuse;
    assert (p / TWO32 - use) * TWO32 == reuse - p % TWO32;
  }

  // ---- entries under one key ----

  function CountIn(nodes: seq<ReuseNode>, c: int): nat {
    if nodes == [] then 0 else (if nodes[0].create == c then nodes[0].count else 0) + CountIn(nodes[1..], c)
  }

  function DistanceIn(nodes: seq<ReuseNode>, c: int): nat {
    if nodes == [] then 0 else (if nodes[0].create == c then nodes[0].distance else 0) + DistanceIn(nodes[1..], c)
  }

  /** One entry per creator, and none is empty. */
  predicate Tidy(nodes: seq<ReuseNode>) {
    && (forall i, j :: 0 <= i < j < |nodes| ==> nodes[i].create != nodes[j].create)
    && forall i :: 0 <= i < |nodes| ==> nodes[i].count > 0
  }

  /** The first entry of the creator takes the distance, or a new one is appended. */
  function AddNode(nodes: seq<ReuseNode>, c: int, d: nat): seq<ReuseNode> {
    if nodes == [] then [ReuseNode(c, d, 1)]
    else if nodes[0].create == c then [ReuseNode(c, nodes[0].distance + d, nodes[0].count + 1)] + nodes[1..]
    else [nodes[0]] + AddNode(nodes[1..], c, d)
  }

  lemma {:induction false} AddNodeCounts(nodes: seq<ReuseNode>, c: int, d: nat, c': int)
    ensures CountIn(AddNode(nodes, c, d), c') == CountIn(nodes, c') + if c' == c then 1 else 0
    ensures DistanceIn(AddNode(nodes, c, d), c') == DistanceIn(nodes, c') + if c' == c then d else 0
  {
    if nodes != [] && nodes[0].create != c {
      AddNodeCounts(nodes[1..], c, d, c');
    }
  }

  /** Entries keep their place and creator; a new one comes last, for a creator not there before. */
  lemma {:induction false} AddNodePlaces(nodes: seq<ReuseNode>, c: int, d: nat)
    ensures var r := AddNode(nodes, c, d);
            && |nodes| <= |r| <= |nodes| + 1
            && (forall k :: 0 <= k < |nodes| ==> r[k].create == nodes[k].create && r[k].count >= nodes[k].count)
            && (|r| > |nodes| ==>
                  && r[|nodes|] == ReuseNode(c, d, 1)
                  && forall k :: 0 <= k < |nodes| ==> nodes[k].create != c)
  {
    if nodes != [] && nodes[0].create != c {
      AddNodePlaces(nodes[1..], c, d);
    }
  }

  lemma AddNodeTidy(nodes: seq<ReuseNode>, c: int, d: nat)
    requires Tidy(nodes)
    ensures Tidy(AddNode(nodes, c, d))
  {
    AddNodePlaces(nodes, c, d);
  }

  /** In a tidy list each entry is the whole of its creator. */
  lemma {:induction false} TidyEntry(nodes: seq<ReuseNode>, i: nat)
    requires Tidy(nodes) && i < |nodes|
    ensures CountIn(nodes, nodes[i].create) == nodes[i].count && DistanceIn(nodes, nodes[i].create) == nodes[i].distance
  {
    if i > 0 {
      assert Tidy(nodes[1..]);
      TidyEntry(nodes[1..], i - 1);
    } else {
      AbsentCreator(nodes[1..], nodes[0].create);
    }
  }

  lemma {:induction false} AbsentCreator(nodes: seq<ReuseNode>, c: int)
    requires forall i :: 0 <= i < |nodes| ==> nodes[i].create != c
    ensures CountIn(nodes, c) == 0 && DistanceIn(nodes, c) == 0
  {
    if nodes != [] {
      AbsentCreator(nodes[1..], c);
    }
  }

  lemma {:induction false} AddNodeAt(nodes: seq<ReuseNode>, c: int, d: nat, i: nat)
    requires i <= |nodes| && forall k :: 0 <= k < i ==> nodes[k].create != c
    ensures AddNode(nodes, c, d) == nodes[..i] + AddNode(nodes[i..], c, d)
  {
    if i > 0 {
      AddNodeAt(nodes[1..], c, d, i - 1);
      assert nodes[1..][i - 1..] == nodes[i..];
      assert [nodes[0]] + nodes[1..][..i - 1] == nodes[..i];
    }
  }

  // ---- the maps of one thread ----

  type UseMap = map<int, UseNode>
  type ReuseMap = map<nat, seq<ReuseNode>>

  function At(rm: ReuseMap, p: nat): seq<ReuseNode> {
    if p in rm then rm[p] else []
  }

  ghost predicate UseAt(um: UseMap, s: seq<Access>, addr: int) {
    var m := Last(s, addr);
    && (addr in um <==> m > 0)
    && (m > 0 ==> um[addr] == UseNode(Creator(s[..m]), s[m - 1].handle, m, Window(m)))
  }

  function TripleAt(p: nat, c: int): Triple {
    Triple(p / TWO32, p % TWO32, c)
  }

  ghost predicate ReuseAt(rm: ReuseMap, s: seq<Access>, p: nat, c: int) {
    && CountIn(At(rm, p), c) == Count(s, TripleAt(p, c))
    && DistanceIn(At(rm, p), c) == Distance(s, TripleAt(p, c))
  }

  ghost predicate UseOk(um: UseMap, s: seq<Access>) {
    forall addr :: UseAt(um, s, addr)
  }

  ghost predicate ReuseOk(rm: ReuseMap, s: seq<Access>) {
    && (forall p :: p in rm ==> Tidy(rm[p]))
    && forall p: nat, c :: ReuseAt(rm, s, p, c)
  }

  /** The maps after the sampled access that ends the stream. */
  function NextUse(um: UseMap, s: seq<Access>): UseMap
    requires s != []
  {
    um[s[|s| - 1].addr := UseNode(Creator(s), s[|s| - 1].handle, |s|, Window(|s|))]
  }

  function NextReuse(rm: ReuseMap, s: seq<Access>): ReuseMap
    requires s != [] && s[|s| - 1].handle < TWO32
  {
    if !IsReuse(s) then rm else
    var p := Pack(TripleOf(s).use, s[|s| - 1].handle);
    rm[p := AddNode(At(rm, p), Creator(s), |s| - Previous(s))]
  }

  lemma UseStep(um: UseMap, s: seq<Access>)
    requires s != [] && UseOk(um, s[..|s| - 1])
    ensures UseOk(if Sampled(|s|) then NextUse(um, s) else um, s)
  {
    var um' := if Sampled(|s|) then NextUse(um, s) else um;
    forall addr ensures UseAt(um', s, addr) {
      assert UseAt(um, s[..|s| - 1], addr);
      var m := Last(s[..|s| - 1], addr);
      assert s[..|s| - 1][..m] == s[..m] && s[..|s|] == s;
    }
  }

  lemma ReuseStep(rm: ReuseMap, s: seq<Access>)
    requires s != [] && s[|s| - 1].handle < TWO32 && ReuseOk(rm, s[..|s| - 1])
    ensures ReuseOk(NextReuse(rm, s), s)
  {
    var rm' := NextReuse(rm, s);
    var d := |s| - Previous(s);
    forall p: nat, c ensures ReuseAt(rm', s, p, c) {
      assert ReuseAt(rm, s[..|s| - 1], p, c);
      if IsReuse(s) {
        var q := Pack(TripleOf(s).use, s[|s| - 1].handle);
        PackInjective(p, q);
        if p == q {
          AddNodeCounts(At(rm, p), Creator(s), d, c);
        }
      }
    }
    if IsReuse(s) {
      AddNodeTidy(At(rm, Pack(TripleOf(s).use, s[|s| - 1].handle)), Creator(s), d);
    }
  }

  lemma PackInjective(p: nat, q: nat)
    ensures p == q <==> p / TWO32 == q / TWO32 && p % TWO32 == q % TWO32
  {
    assert p == p / TWO32 * TWO32 + p % TWO32 && q == q / TWO32 * TWO32 + q % TWO32;
  }

  // ---- the thread ----

  class ReuseThread {
    var curMemIdx: nat
    var sampleRunIndex: nat
    var useMap: UseMap
    var reuseMap: ReuseMap
    ghost var stream: seq<Access>

    ghost predicate Valid()
      reads this
    {
      && |stream| < TWO32 && curMemIdx == |stream| && sampleRunIndex == Window(|stream|)
      && UseOk(useMap, stream) && ReuseOk(reuseMap, stream)
    }

    constructor ()
      ensures Valid() && stream == []
    {
      curMemIdx, sampleRunIndex := 0, 0;
      useMap, reuseMap := map[], map[];
      stream := [];
    }

    /** The loop over the entries of one pair in `UpdateUseAndReuseMap`. */
    method AddReuse(pair: nat, create: int, distance: nat)
      modifies this`reuseMap
      ensures reuseMap == old(reuseMap)[pair := AddNode(At(old(reuseMap), pair), create, distance)]
    {
      var nodes := At(reuseMap, pair);
      var i := 0;
      while i < |nodes| && nodes[i].create != create
        invariant 0 <= i <= |nodes| && forall k :: 0 <= k < i ==> nodes[k].create != create
      {
        i := i + 1;
      }
      AddNodeAt(nodes, create, distance, i);
      ghost var before := nodes;
      if i == |nodes| {
        nodes := nodes + [ReuseNode(create, distance, 1)];
        assert before[i..] == [] && before[..i] == before;
      } else {
        nodes := nodes[i := ReuseNode(create, nodes[i].distance + distance, nodes[i].count + 1)];
        assert before[i..][0] == before[i] && nodes == before[..i] + ([nodes[i]] + before[i..][1..]);
      }
      assert nodes == AddNode(before, create, distance);
      reuseMap := reuseMap[pair := nodes];
    }

    /** `UpdateUseAndReuseMap` for the sampled access that ends `now`. */
    method UpdateUseAndReuseMap(curIdx: nat, a: Access, ghost now: seq<Access>)
      requires now != [] && curIdx == |now| && a == now[|now| - 1] && a.handle < TWO32 && Sampled(|now|)
      requires UseOk(useMap, now[..|now| - 1]) && sampleRunIndex == Window(|now|)
      modifies this`useMap, this`reuseMap
      ensures useMap == NextUse(old(useMap), now) && reuseMap == NextReuse(old(reuseMap), now)
    {
      ghost var m := Previous(now);
      assert UseAt(useMap, now[..|now| - 1], a.addr);
      assert now[..|now| - 1][..m] == now[..m];
      if a.addr !in useMap {
        useMap := useMap[a.addr := UseNode(0, a.handle, curIdx, sampleRunIndex)];
        return;
      }
      var node := useMap[a.addr];
      if node.run != sampleRunIndex {
        useMap := useMap[a.addr := UseNode(0, a.handle, curIdx, sampleRunIndex)];
        return;
      }
      var distance := curIdx - node.lastIdx;
      if distance > REUSED_THRES {
        if node.create >= 0 {
          node := node.(create := CreateHandle(a.data));
        }
        AddReuse(Pack(node.use, a.handle), node.create, distance);
      }
      useMap := useMap[a.addr := node.(use := a.handle, lastIdx := curIdx)];
    }

    /** `DoWhatClientWantTodo`: every access is numbered, the sampled ones are accounted. */
    method DoWhatClientWantTodo(a: Access)
      requires Valid() && |stream| + 1 < TWO32 && a.handle < TWO32
      modifies this
      ensures Valid() && stream == old(stream) + [a]
    {
      ghost var now := stream + [a];
      assert now[..|now| - 1] == stream;
      curMemIdx := (curMemIdx + 1) % TWO32;
      if curMemIdx > 0 && curMemIdx % UNITE_NUM == 0 {
        sampleRunIndex := sampleRunIndex + 1;
      }
      WindowStep(|now|);
      UseStep(useMap, now);
      ReuseStep(reuseMap, now);
      if curMemIdx % UNITE_NUM <= SAMPLE_NUM {
        UpdateUseAndReuseMap(curMemIdx, a, now);
      }
      stream := now;
    }

    /** The references of one block, up to the first whose slot the block does not have. */
    method InstrumentPerBBCache(handle: nat, slotNum: nat, refs: seq<(nat, int, DataObject)>)
      requires Valid() && |stream| + |refs| < TWO32 && handle + slotNum <= TWO32
      modifies this
      ensures Valid() && stream == old(stream) + BlockAccesses(handle, slotNum, refs)
    {
      ghost var before := stream;
      var i := 0;
      assert refs[0..] == refs;
      while i < |refs| && refs[i].0 < slotNum
        invariant 0 <= i <= |refs| && Valid() && |stream| + (|refs| - i) < TWO32
        invariant stream + BlockAccesses(handle, slotNum, refs[i..]) == before + BlockAccesses(handle, slotNum, refs)
      {
        assert refs[i..][1..] == refs[i + 1..];
        DoWhatClientWantTodo(Access(handle + refs[i].0, refs[i].1, refs[i].2));
        i := i + 1;
      }
    }

    /** The filter of `PrintTopN`. */
    method IsPrinted(pair: nat, i: nat) returns (printed: bool)
      requires Valid() && pair in reuseMap && i < |reuseMap[pair]|
      ensures printed <==> reuseMap[pair][i].create > 0
                           && Count(stream, TripleAt(pair, reuseMap[pair][i].create)) >= REUSED_PRINT_MIN_COUNT
    {
      var node := reuseMap[pair][i];
      EntryIsCount(reuseMap, stream, pair, i);
      AverageIsFar(stream, TripleAt(pair, node.create));
      var distance := node.distance / node.count;
      if distance < REUSED_THRES || node.count < REUSED_PRINT_MIN_COUNT {
        return false;
      }
      return node.create > 0;
    }
  }

  function BlockAccesses(handle: nat, slotNum: nat, refs: seq<(nat, int, DataObject)>): seq<Access> {
    if refs == [] || refs[0].0 >= slotNum then []
    else [Access(handle + refs[0].0, refs[0].1, refs[0].2)] + BlockAccesses(handle, slotNum, refs[1..])
  }

  lemma WindowStep(n: nat)
    requires n > 0
    ensures Window(n) == Window(n - 1) + if n % UNITE_NUM == 0 then 1 else 0
  {
    var q, r := (n - 1) / UNITE_NUM, (n - 1) % UNITE_NUM;
    assert n - 1 == q * UNITE_NUM + r;
  }

  /** Each entry holds exactly the count and the distance sum of its use, reuse and creator. */
  lemma EntryIsCount(rm: ReuseMap, s: seq<Access>, p: nat, i: nat)
    requires ReuseOk(rm, s) && p in rm && i < |rm[p]|
    ensures var t := TripleAt(p, rm[p][i].create);
            rm[p][i].count == Count(s, t) > 0 && rm[p][i].distance == Distance(s, t)
  {
    TidyEntry(rm[p], i);
    assert ReuseAt(rm, s, p, rm[p][i].create);
  }

  /** And every far reuse is in an entry, under the key that unpacks to its two handles. */
  lemma ReuseHasEntry(rm: ReuseMap, s: seq<Access>, use: nat, reuse: nat, create: int) returns (i: nat)
    requires ReuseOk(rm, s) && reuse < TWO32 && Count(s, Triple(use, reuse, create)) > 0
    ensures Pack(use, reuse) in rm && i < |rm[Pack(use, reuse)]|
    ensures rm[Pack(use, reuse)][i] ==
            ReuseNode(create, Distance(s, Triple(use, reuse, create)), Count(s, Triple(use, reuse, create)))
  {
    var p := Pack(use, reuse);
    assert ReuseAt(rm, s, p, create);
    var nodes := At(rm, p);
    if forall k :: 0 <= k < |nodes| ==> nodes[k].create != create {
      AbsentCreator(nodes, create);
    }
    i :| i < |nodes| && nodes[i].create == create;
    TidyEntry(nodes, i);
  }
}
