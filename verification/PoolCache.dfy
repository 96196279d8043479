/** The object pool with its debris list, and the per-thread caches that it feeds. Objects are
    named by their position: page number times page size plus offset. */
module PoolCache {

  datatype Piece = Piece(start: nat, size: nat)

  const NOTHING := Piece(0, 0)

  // ---- how often an object lies in a piece or a list of pieces ----

  function Has(p: Piece, x: nat): nat {
    if p.start <= x < p.start + p.size then 1 else 0
  }

  function Times(pieces: seq<Piece>, x: nat): nat {
    if pieces == [] then 0 else Times(pieces[..|pieces| - 1], x) + Has(pieces[|pieces| - 1], x)
  }

  lemma TimesSnoc(pieces: seq<Piece>, p: Piece, x: nat)
    ensures Times(pieces + [p], x) == Times(pieces, x) + Has(p, x)
  {
    assert (pieces + [p])[..|pieces|] == pieces;
  }

  lemma {:induction false} TimesUpdate(pieces: seq<Piece>, i: nat, p: Piece, x: nat)
    requires i < |pieces|
    ensures Times(pieces[i := p], x) + Has(pieces[i], x) == Times(pieces, x) + Has(p, x)
  {
    var last := |pieces| - 1;
    if i == last {
      assert pieces[i := p][..last] == pieces[..last];
    } else {
      TimesUpdate(pieces[..last], i, p, x);
      assert pieces[i := p][..last] == pieces[..last][i := p];
    }
  }

  lemma {:induction false} TimesNothing(pieces: seq<Piece>, x: nat)
    requires forall i :: 0 <= i < |pieces| ==> pieces[i].size == 0
    ensures Times(pieces, x) == 0
  {
    if pieces != [] {
      TimesNothing(pieces[..|pieces| - 1], x);
    }
  }

  function TotalSize(pieces: seq<Piece>): nat {
    if pieces == [] then 0 else TotalSize(pieces[..|pieces| - 1]) + pieces[|pieces| - 1].size
  }

  /** Enough pieces of the smallest kept size make up any amount. */
  lemma {:induction false} TotalSizeBound(pieces: seq<Piece>, least: nat)
    requires forall i :: 0 <= i < |pieces| ==> pieces[i].size >= least
    ensures TotalSize(pieces) >= |pieces| * least
  {
    if pieces != [] {
      TotalSizeBound(pieces[..|pieces| - 1], least);
    }
  }

  /** `cache_frame_num_`: how many of the smallest pieces make up `min` objects. */
  function FrameNum(min: nat, least: nat): nat
    requires least >= 1
  {
    if min % least > 0 then min / least + 1 else min / least
  }

  /** It is the smallest number that does. */
  lemma FrameNumCovers(min: nat, least: nat)
    requires least >= 1
    ensures FrameNum(min, least) * least >= min
    ensures FrameNum(min, least) * least < min + least
  {
    assert min == min / least * least + min % least;
  }

  lemma InFrames(n: nat, min: nat, least: nat)
    requires least >= 1 && n * least < min
    ensures n < FrameNum(min, least)
  {
    FrameNumCovers(min, least);
    if n >= FrameNum(min, least) {
      TimesMonotone(FrameNum(min, least), n, least);
    }
  }

  lemma TimesMonotone(a: nat, b: nat, p: nat)
    requires a <= b
    ensures a * p <= b * p
  {
  }

  lemma OneMore(n: nat, least: nat)
    ensures (n + 1) * least == n * least + least
  {
  }

  /** Frames in use come first and together hold at least `min` objects. */
  ghost predicate Supplied(frames: seq<Piece>, min: nat) {
    && TotalSize(frames) >= min
    && forall i, j :: 0 <= i < j < |frames| && frames[i].size == 0 ==> frames[j].size == 0
  }

  predicate AllEmpty(frames: seq<Piece>) {
    forall i :: 0 <= i < |frames| ==> frames[i].size == 0
  }

  lemma {:induction false} TotalSizeUpdate(pieces: seq<Piece>, i: nat, p: Piece)
    requires i < |pieces|
    ensures TotalSize(pieces[i := p]) + pieces[i].size == TotalSize(pieces) + p.size
  {
    var last := |pieces| - 1;
    if i == last {
      assert pieces[i := p][..last] == pieces[..last];
    } else {
      TotalSizeUpdate(pieces[..last], i, p);
      assert pieces[i := p][..last] == pieces[..last][i := p];
    }
  }

  // ---- the shared pool ----

  class MemoryCache {
    const maxPages: nat
    const pageSize: nat
    const debrisMin: nat
    /** `cur_page1_index_` plus one. */
    var pages: nat
    var curOffset: nat
    var debrisMode: bool
    var debris: seq<Piece>
    var exited: bool
    /** The pieces dropped for being too short. */
    ghost var discarded: seq<Piece>

    ghost predicate Valid()
      reads this
    {
      && debrisMin >= 1 && 1 <= pages <= maxPages && curOffset <= pageSize && !exited
      && forall i :: 0 <= i < |debris| ==> debris[i].size >= debrisMin
    }

    /** The part of the current page that was never handed out; in debris mode there is none. */
    ghost function Tail(): Piece
      requires pages >= 1 && curOffset <= pageSize
      reads this
    {
      if debrisMode then NOTHING else Piece((pages - 1) * pageSize + curOffset, pageSize - curOffset)
    }

    /** How often the pool answers for object `x`: as fresh tail, as debris, or discarded. */
    ghost function Held(x: nat): nat
      requires pages >= 1 && curOffset <= pageSize
      reads this
    {
      Has(Tail(), x) + Times(debris, x) + Times(discarded, x)
    }

    /** What is taken once the tail is too short for a refill: all debris, and on top the tail itself if it
        is not too short for debris. */
    function WithTail(): seq<Piece>
      reads this
    {
      if !debrisMode && curOffset <= pageSize && pages >= 1 && pageSize - curOffset >= debrisMin then
        debris + [Piece((pages - 1) * pageSize + curOffset, pageSize - curOffset)]
      else
        debris
    }

    constructor (maxPages: nat, pageSize: nat, debrisMin: nat)
      requires maxPages >= 1 && debrisMin >= 1
      ensures Valid() && pages == 1 && forall x :: Held(x) == Has(Piece(0, pageSize), x)
      ensures this.maxPages == maxPages && this.pageSize == pageSize && this.debrisMin == debrisMin
    {
      this.maxPages, this.pageSize, this.debrisMin := maxPages, pageSize, debrisMin;
      pages, curOffset, debrisMode, debris, exited := 1, 0, false, [], false;
      discarded := [];
    }

    /** `init_new_page2`, called when the current page has no tail left; exits when full. */
    method InitNewPage2()
      requires Valid() && debrisMode
      modifies this`pages, this`curOffset, this`debrisMode, this`exited
      ensures (exited <==> old(pages) == maxPages) && (exited ==> pages == old(pages))
      ensures !exited ==>
                && Valid() && pages == old(pages) + 1 && curOffset == 0 && !debrisMode
                && forall x :: Held(x) == old(Held(x)) + Has(Piece(old(pages) * pageSize, pageSize), x)
    {
      if pages >= maxPages {
        exited := true;
        return;
      }
      pages, curOffset := pages + 1, 0;
      debrisMode := false;
    }

    ghost method Discard(p: Piece)
      requires Valid()
      modifies this`discarded
      ensures Valid() && discarded == old(discarded) + [p] && forall x :: Held(x) == old(Held(x)) + Has(p, x)
    {
      forall x { TimesSnoc(discarded, p, x); }
      discarded := discarded + [p];
    }

    /** `add_debris`: a short piece is dropped. */
    method AddDebris(p: Piece)
      requires Valid()
      modifies this`debris, this`discarded
      ensures Valid() && forall x :: Held(x) == old(Held(x)) + Has(p, x)
      ensures debris == if p.size >= debrisMin then old(debris) + [p] else old(debris)
      ensures discarded == if p.size >= debrisMin then old(discarded) else old(discarded) + [p]
    {
      if p.size < debrisMin {
        Discard(p);
      } else {
        forall x { TimesSnoc(debris, p, x); }
        debris := debris + [p];
      }
    }

    /** Cuts `min` objects off the tail into the first frame. */
    method TakeTail(frames: array<Piece>, min: nat)
      requires Valid() && !debrisMode && frames.Length >= 1 && 1 <= min <= pageSize - curOffset && AllEmpty(frames[..])
      modifies this`curOffset, frames
      ensures Valid() && forall x :: Held(x) + Times(frames[..], x) == old(Held(x))
      ensures Supplied(frames[..], min) && frames[0].size == min && curOffset == old(curOffset) + min
    {
      ghost var before := frames[..];
      var taken := Piece((pages - 1) * pageSize + curOffset, min);
      forall x: nat ensures Times(before[0 := taken], x) == Has(taken, x) {
        TimesNothing(before, x);
        TimesUpdate(before, 0, taken, x);
      }
      TotalSizeUpdate(before, 0, taken);
      frames[0] := taken;
      curOffset := curOffset + min;
      assert frames[..] == before[0 := taken];
      forall x: nat ensures Held(x) + Times(frames[..], x) == old(Held(x)) {
        assert Times(frames[..], x) == Has(taken, x);
      }
    }

    /** Gives up a tail that is too short: it turns into debris, or is dropped. */
    method GiveUpTail()
      requires Valid() && !debrisMode
      modifies this`debrisMode, this`debris, this`discarded
      ensures Valid() && debrisMode && debris == old(WithTail()) && forall x :: Held(x) == old(Held(x))
    {
      var tail := Piece((pages - 1) * pageSize + curOffset, pageSize - curOffset);
      debrisMode := true;
      if tail.size >= debrisMin {
        AddDebris(tail);
      } else {
        Discard(tail);
      }
    }

    /** Moves the last piece of debris into frame `i`. */
    method PopDebris(frames: array<Piece>, i: nat) returns (size: nat)
      requires Valid() && debris != [] && i < frames.Length && frames[i].size == 0
      modifies this`debris, frames
      ensures Valid() && debris == old(debris)[..|old(debris)| - 1]
      ensures size >= debrisMin && frames[i].size == size
      ensures forall k :: 0 <= k < frames.Length && k != i ==> frames[k] == old(frames[k])
      ensures TotalSize(frames[..]) == old(TotalSize(frames[..])) + size
      ensures TotalSize(debris) == old(TotalSize(debris)) - size
      ensures forall x :: Held(x) + Times(frames[..], x) == old(Held(x) + Times(frames[..], x))
    {
      ghost var before := frames[..];
      var last := |debris| - 1;
      var p := debris[last];
      forall x: nat ensures Times(before[i := p], x) == Times(before, x) + Has(p, x) {
        TimesUpdate(before, i, p, x);
      }
      TotalSizeUpdate(before, i, p);
      frames[i] := p;
      assert frames[..] == before[i := p];
      debris := debris[..last];
      size := p.size;
    }

    /** The pops from the debris list: the latest pieces, no more than make up `min` objects, and never more
        than there are frames. */
    method TakeDebris(frames: array<Piece>, min: nat)
      requires Valid() && debrisMode && min >= 1 && AllEmpty(frames[..])
      requires frames.Length == FrameNum(min, debrisMin)
      requires |debris| >= frames.Length || TotalSize(debris) >= min
      modifies this`debris, frames
      ensures Valid() && forall x :: Held(x) + Times(frames[..], x) == old(Held(x))
      ensures Supplied(frames[..], min) && Popped(old(debris), debris, min)
    {
      ghost var before := debris;
      var size := |debris|;
      var added := 0;
      DebrisSuffices(debris, debrisMin, min);
      NothingTaken(frames[..]);
      for i := 0 to size
        invariant debris == before[..size - i] && Valid()
        invariant i * debrisMin <= added < min && added == TotalSize(frames[..])
        invariant added + TotalSize(debris) == TotalSize(before)
        invariant forall k :: 0 <= k < frames.Length ==> (frames[k].size > 0 <==> k < i)
        invariant forall x :: Held(x) + Times(frames[..], x) == old(Held(x))
      {
        InFrames(i, min, debrisMin);
        var taken := PopDebris(frames, i);
        added := added + taken;
        OneMore(i, debrisMin);
        assert debris == before[..size - i - 1];
        if added >= min {
          return;
        }
      }
    }
  
    /** `init_sub_cache_frame`: fills empty frames with at least `min` objects from the page, from
        debris, or from a new page. */
    method InitSubCacheFrame(frames: array<Piece>, min: nat)
      requires Valid() && 1 <= min <= pageSize && AllEmpty(frames[..]) && frames.Length == FrameNum(min, debrisMin)
      modifies this`pages, this`curOffset, this`debrisMode, this`debris, this`discarded, this`exited, frames
      ensures var fromTail, fromDebris := old(!debrisMode && pageSize - curOffset >= min), TotalSize(old(WithTail())) >= min;
              && (exited <==> !fromTail && !fromDebris && old(pages) == maxPages) && (exited ==> pages == old(pages))
              && (!exited ==>
                    && pages == old(pages) + (if fromTail || fromDebris then 0 else 1)
                    && (if fromTail then debris == old(debris) else
                        if fromDebris then Popped(old(WithTail()), debris, min) else debris == old(WithTail())))
      ensures !exited ==>
                && Valid() && Supplied(frames[..], min)
                && forall x :: Held(x) + Times(frames[..], x) == old(Held(x)) + Opened(old(pages), pages, pageSize, x)
      decreases !(!debrisMode && pageSize - curOffset >= min)
    {
      FramesExist(min, debrisMin);
      forall x: nat ensures Times(frames[..], x) == 0 { TimesNothing(frames[..], x); }
      if !debrisMode {
        if pageSize - curOffset >= min {
          TakeTail(frames, min);
        } else {
          GiveUpTail();
        }
      }
      if debrisMode {
        DebrisTest(debris, debrisMin, min);
        var useDebris := frames.Length <= |debris| || TotalSize(debris) >= min;
        if useDebris {
          TakeDebris(frames, min);
        } else {
          InitNewPage2();
          if exited {
            return;
          }
          InitSubCacheFrame(frames, min);
        }
      }
    }
  }

  /** The pieces long enough to be kept. */
  function Kept(pieces: seq<Piece>, least: nat): seq<Piece> {
    if pieces == [] then [] else
    var last := pieces[|pieces| - 1];
    Kept(pieces[..|pieces| - 1], least) + if last.size >= least then [last] else []
  }

  lemma {:induction false} KeptFront(p: Piece, pieces: seq<Piece>, least: nat)
    ensures Kept([p] + pieces, least) == (if p.size >= least then [p] else []) + Kept(pieces, least)
  {
    if pieces != [] {
      var last := |pieces| - 1;
      assert ([p] + pieces)[..last + 1] == [p] + pieces[..last];
      KeptFront(p, pieces[..last], least);
    }
  }

  /** The last pieces were taken: enough of them for `min` objects, and not one more than needed. */
  ghost predicate Popped(before: seq<Piece>, after: seq<Piece>, min: nat) {
    && |after| < |before| && after == before[..|after|]
    && TotalSize(before) - TotalSize(after) >= min > TotalSize(before) - TotalSize(before[..|after| + 1])
  }

  /** The objects of a page opened between two states of the pool. */
  function Opened(before: nat, after: nat, pageSize: nat, x: nat): nat {
    if after == before then 0 else Has(Piece(before * pageSize, pageSize), x)
  }

  /** Where one object is, as one thread sees it. */
  datatype Share = Share(pages: nat, pool: nat, unused: nat)

  /** Between two states the object neither appeared nor vanished, except by the opening of its
      page and by being handed out. */
  predicate Conserves(a: Share, b: Share, given: nat, pageSize: nat, x: nat) {
    && a.pages <= b.pages <= a.pages + 1
    && b.pool + b.unused + given == a.pool + a.unused + Opened(a.pages, b.pages, pageSize, x)
  }

  lemma FramesExist(min: nat, least: nat)
    requires min >= 1 && least >= 1
    ensures FrameNum(min, least) >= 1
  {
    FrameNumCovers(min, least);
  }

  /** Either test of the debris list makes sure that it holds `min` objects. */
  lemma DebrisSuffices(debris: seq<Piece>, least: nat, min: nat)
    requires least >= 1 && forall i :: 0 <= i < |debris| ==> debris[i].size >= least
    requires |debris| >= FrameNum(min, least) || TotalSize(debris) >= min
    ensures TotalSize(debris) >= min
  {
    TotalSizeBound(debris, least);
    FrameNumCovers(min, least);
    if |debris| >= FrameNum(min, least) {
      TimesMonotone(FrameNum(min, least), |debris|, least);
    }
  }

  lemma DebrisTest(debris: seq<Piece>, least: nat, min: nat)
    requires least >= 1 && forall i :: 0 <= i < |debris| ==> debris[i].size >= least
    ensures |debris| >= FrameNum(min, least) ==> TotalSize(debris) >= min
  {
    if |debris| >= FrameNum(min, least) {
      DebrisSuffices(debris, least, min);
    }
  }

  lemma {:induction false} TotalSizeEmpty(pieces: seq<Piece>)
    requires AllEmpty(pieces)
    ensures TotalSize(pieces) == 0
  {
    if pieces != [] {
      TotalSizeEmpty(pieces[..|pieces| - 1]);
    }
  }

  lemma NothingTaken(pieces: seq<Piece>)
    requires AllEmpty(pieces)
    ensures TotalSize(pieces) == 0 && forall x: nat :: Times(pieces, x) == 0
  {
    TotalSizeEmpty(pieces);
    forall x: nat ensures Times(pieces, x) == 0 { TimesNothing(pieces, x); }
  }

  lemma {:induction false} TimesFront(pieces: seq<Piece>, x: nat)
    requires pieces != []
    ensures Times(pieces, x) == Has(pieces[0], x) + Times(pieces[1..], x)
  {
    var last := |pieces| - 1;
    if last > 0 {
      TimesFront(pieces[..last], x);
      assert pieces[1..][..last - 1] == pieces[..last][1..];
    }
  }

  // ---- the per-thread cache ----

  class TlsMemoryCache {
    const pool: MemoryCache
    const cacheMin: nat
    const frames: array<Piece>
    var lastFrame: nat
    var lastNum: int

    ghost predicate Valid()
      reads this, pool, frames
    {
      && pool.Valid() && 1 <= cacheMin <= pool.pageSize && frames.Length == FrameNum(cacheMin, pool.debrisMin)
      && lastFrame < frames.Length && -1 <= lastNum < frames[lastFrame].size
      && forall i, j :: 0 <= i < j < frames.Length && frames[i].size == 0 ==> frames[j].size == 0
    }

    /** What is left of the frame in use. */
    function Rest(): Piece
      requires lastFrame < frames.Length && -1 <= lastNum < frames[lastFrame].size
      reads this, frames
    {
      Piece(frames[lastFrame].start + lastNum + 1, frames[lastFrame].size - lastNum - 1)
    }

    /** How often object `x` is still to be handed out by this cache. */
    ghost function Unused(x: nat): nat
      requires lastFrame < frames.Length && -1 <= lastNum < frames[lastFrame].size
      reads this, frames
    {
      Has(Rest(), x) + Times(frames[lastFrame + 1..], x)
    }

    ghost function ShareOf(x: nat): Share
      requires Valid()
      reads this, pool, frames
    {
      Share(pool.pages, pool.Held(x), Unused(x))
    }

    /** A first refill. A cache bigger than a page makes the process exit. */
    constructor (pool: MemoryCache, cacheMin: nat)
      requires pool.Valid() && 1 <= cacheMin
      modifies pool
      ensures this.pool == pool && this.cacheMin == cacheMin && fresh(frames)
      ensures pool.exited ==> cacheMin > pool.pageSize || pool.pages == old(pool.pages) == pool.maxPages
      ensures cacheMin > pool.pageSize ==> pool.exited
      ensures !pool.exited ==>
                && Valid()
                && forall x: nat :: Conserves(old(Share(pool.pages, pool.Held(x), 0)), ShareOf(x), 0, pool.pageSize, x)
    {
      this.pool, this.cacheMin := pool, cacheMin;
      frames := new Piece[FrameNum(cacheMin, pool.debrisMin)](_ => NOTHING);
      lastFrame, lastNum := 0, -1;
      new;
      if cacheMin > pool.pageSize {
        pool.exited := true;
      } else {
        ReinitSubCache();
      }
    }

    /** `reinit_sub_cache`, called when nothing is left. */
    method ReinitSubCache()
      requires pool.Valid() && 1 <= cacheMin <= pool.pageSize && frames.Length == FrameNum(cacheMin, pool.debrisMin)
      modifies pool, frames, this`lastFrame, this`lastNum
      ensures pool.exited ==> pool.pages == old(pool.pages) == pool.maxPages
      ensures !pool.exited ==>
                && Valid() && lastFrame == 0 && lastNum == -1 && frames[0].size >= 1
                && old(pool.pages) <= pool.pages <= old(pool.pages) + 1
                && forall x :: pool.Held(x) + Unused(x) == old(pool.Held(x)) + Opened(old(pool.pages), pool.pages, pool.pageSize, x)
    {
      ClearFrames();
      FramesExist(cacheMin, pool.debrisMin);
      pool.InitSubCacheFrame(frames, cacheMin);
      lastFrame, lastNum := 0, -1;
      if !pool.exited {
        if frames[0].size == 0 {
          TotalSizeEmpty(frames[..]);
        }
        forall x: nat ensures Unused(x) == Times(frames[..], x) {
          TimesFront(frames[..], x);
          assert frames[..][1..] == frames[1..];
        }
      }
    }

    /** Moves past an exhausted frame, to the next one or to a fresh supply. */
    method NextFrame()
      requires Valid() && lastNum + 1 == frames[lastFrame].size
      modifies pool, frames, this`lastFrame, this`lastNum
      ensures pool.exited ==> pool.pages == old(pool.pages) == pool.maxPages
      ensures !pool.exited ==>
                && Valid() && lastNum == -1 && frames[lastFrame].size >= 1 && old(pool.pages) <= pool.pages <= old(pool.pages) + 1
                && forall x :: pool.Held(x) + Unused(x)
                               == old(pool.Held(x) + Unused(x)) + Opened(old(pool.pages), pool.pages, pool.pageSize, x)
    {
      ghost var rest := frames[lastFrame + 1..];
      if lastFrame + 1 >= frames.Length || frames[lastFrame + 1].size == 0 {
        forall x: nat ensures Times(rest, x) == 0 { TimesNothing(rest, x); }
        ReinitSubCache();
      } else {
        forall x: nat ensures Times(rest, x) == Has(rest[0], x) + Times(rest[1..], x) { TimesFront(rest, x); }
        lastFrame, lastNum := lastFrame + 1, -1;
        assert frames[lastFrame + 1..] == rest[1..];
      }
    }

    /** `get_next_object`: the object handed out leaves the unused ones, and nothing else does. */
    method GetNextObject() returns (obj: nat)
      requires Valid()
      modifies pool, frames, this`lastFrame, this`lastNum
      ensures pool.exited ==> pool.pages == old(pool.pages) == pool.maxPages
      ensures !pool.exited ==>
                && Valid()
                && forall x: nat :: Conserves(old(ShareOf(x)), ShareOf(x), Has(Piece(obj, 1), x), pool.pageSize, x)
    {
      if lastNum + 1 >= frames[lastFrame].size {
        NextFrame();
        if pool.exited {
          return 0;
        }
      }
      lastNum := lastNum + 1;
      obj := frames[lastFrame].start + lastNum;
    }

    /** `free_unuse_object`: at thread end all unused objects go back to the pool. */
    method FreeUnuseObject()
      requires Valid()
      modifies pool, frames
      ensures pool.Valid() && pool.pages == old(pool.pages) && AllEmpty(frames[..])
      ensures pool.debris == old(pool.debris + Kept([Rest()] + frames[lastFrame + 1..], pool.debrisMin))
      ensures forall x: nat :: Conserves(old(ShareOf(x)), Share(pool.pages, pool.Held(x), 0), 0, pool.pageSize, x)
    {
      GiveBackAll();
      ClearFrames();
    }

    method GiveBackAll()
      requires Valid()
      modifies pool
      ensures pool.Valid() && pool.pages == old(pool.pages)
      ensures pool.debris == old(pool.debris) + Kept([Rest()] + frames[lastFrame + 1..], pool.debrisMin)
      ensures forall x: nat :: pool.Held(x) == old(pool.Held(x) + Unused(x))
    {
      KeptFront(Rest(), frames[lastFrame + 1..], pool.debrisMin);
      GiveBack(Rest());
      GiveBackFrames();
    }

    /** The frames behind the one in use, each on its own. */
    method GiveBackFrames()
      requires pool.Valid() && lastFrame < frames.Length
      modifies pool
      ensures pool.Valid() && pool.pages == old(pool.pages)
      ensures pool.debris == old(pool.debris) + Kept(frames[lastFrame + 1..], pool.debrisMin)
      ensures forall x :: pool.Held(x) == old(pool.Held(x)) + Times(frames[lastFrame + 1..], x)
    {
      ghost var fs := frames[lastFrame + 1..];
      forall x: nat ensures Times(fs[..0], x) == 0 { TimesNothing(fs[..0], x); }
      for i := lastFrame + 1 to frames.Length
        invariant pool.Valid() && pool.pages == old(pool.pages)
        invariant pool.debris == old(pool.debris) + Kept(fs[..i - lastFrame - 1], pool.debrisMin)
        invariant forall x :: pool.Held(x) == old(pool.Held(x)) + Times(fs[..i - lastFrame - 1], x)
      {
        GiveBack(frames[i]);
        assert fs[..i - lastFrame][..i - lastFrame - 1] == fs[..i - lastFrame - 1];
      }
      assert fs[..frames.Length - lastFrame - 1] == fs;
    }

    method ClearFrames()
      modifies frames
      ensures forall k :: 0 <= k < frames.Length ==> frames[k] == NOTHING
    {
      for i := 0 to frames.Length
        invariant forall k :: 0 <= k < i ==> frames[k] == NOTHING
      {
        frames[i] := NOTHING;
      }
    }

    method GiveBack(p: Piece)
      requires pool.Valid()
      modifies pool
      ensures pool.Valid() && pool.pages == old(pool.pages)
      ensures pool.debris == old(pool.debris) + (if p.size >= pool.debrisMin then [p] else [])
      ensures forall x :: pool.Held(x) == old(pool.Held(x)) + Has(p, x)
    {
      if p.size >= pool.debrisMin {
        pool.AddDebris(p);
      } else {
        pool.Discard(p);
      }
    }
  }

  // ---- any number of caches on one pool, in any interleaving ----

  /** What a thread does under the pool's lock: it starts, asks for an object, or ends. */
  datatype Op = Begin(cacheMin: nat) | Next(cache: nat) | End(cache: nat)

  /** The caches of the running threads: all on this pool, and no two share a frame array. */
  ghost predicate System(pool: MemoryCache, caches: seq<TlsMemoryCache>)
    reads pool, caches, set c | c in caches :: c.frames
  {
    && pool.Valid()
    && (forall k :: 0 <= k < |caches| ==> caches[k].pool == pool && caches[k].Valid())
    && forall k, l :: 0 <= k < l < |caches| ==> caches[k] != caches[l] && caches[k].frames != caches[l].frames
  }

  ghost predicate Ready(caches: seq<TlsMemoryCache>)
    reads caches, set c | c in caches :: c.frames
  {
    forall k :: 0 <= k < |caches| ==>
      && caches[k].lastFrame < caches[k].frames.Length
      && -1 <= caches[k].lastNum < caches[k].frames[caches[k].lastFrame].size
  }

  /** How often `x` is still to be handed out, cache by cache. */
  ghost function Amounts(caches: seq<TlsMemoryCache>, x: nat): (a: seq<nat>)
    requires Ready(caches)
    reads caches, set c | c in caches :: c.frames
    ensures |a| == |caches| && forall k :: 0 <= k < |caches| ==> a[k] == caches[k].Unused(x)
  {
    if caches == [] then [] else
    var last := |caches| - 1;
    Amounts(caches[..last], x) + [caches[last].Unused(x)]
  }

  ghost function UnusedIn(caches: seq<TlsMemoryCache>, x: nat): nat
    requires Ready(caches)
    reads caches, set c | c in caches :: c.frames
  {
    Sum(Amounts(caches, x))
  }

  function Sum(s: seq<nat>): nat {
    if s == [] then 0 else Sum(s[..|s| - 1]) + s[|s| - 1]
  }

  function Without<T>(s: seq<T>, i: nat): seq<T>
    requires i < |s|
  {
    s[..i] + s[i + 1..]
  }

  lemma {:induction false} SumWithout(s: seq<nat>, i: nat)
    requires i < |s|
    ensures Sum(s) == Sum(Without(s, i)) + s[i]
  {
    var last := |s| - 1;
    if i == last {
      assert Without(s, i) == s[..last];
    } else {
      SumWithout(s[..last], i);
      assert Without(s, i)[..last - 1] == Without(s[..last], i);
    }
  }

  lemma SumUpdate(s: seq<nat>, i: nat, v: nat)
    requires i < |s|
    ensures Sum(s[i := v]) + s[i] == Sum(s) + v
  {
    SumWithout(s, i);
    SumWithout(s[i := v], i);
    assert Without(s[i := v], i) == Without(s, i);
  }

  lemma SystemIsReady(pool: MemoryCache, caches: seq<TlsMemoryCache>)
    requires System(pool, caches)
    ensures Ready(caches)
  {
  }

  function Occurrences(handed: seq<nat>, x: nat): nat {
    if handed == [] then 0 else
    Occurrences(handed[..|handed| - 1], x) + if handed[|handed| - 1] == x then 1 else 0
  }

  /** Every object of the opened pages is with the pool, unused in a cache, or handed out, once. */
  ghost predicate Balanced(pool: MemoryCache, caches: seq<TlsMemoryCache>, handed: seq<nat>)
    requires System(pool, caches)
    reads pool, caches, set c | c in caches :: c.frames
  {
    SystemIsReady(pool, caches);
    forall x: nat :: pool.Held(x) + UnusedIn(caches, x) + Occurrences(handed, x) == Has(Piece(0, pool.pages * pool.pageSize), x)
  }

  /** The pages opened between two states, as one stretch of objects. */
  lemma OpenedExtends(before: nat, after: nat, pageSize: nat, x: nat)
    requires before <= after <= before + 1
    ensures Has(Piece(0, before * pageSize), x) + Opened(before, after, pageSize, x) == Has(Piece(0, after * pageSize), x)
  {
    assert (before + 1) * pageSize == before * pageSize + pageSize;
  }

  /** A thread asks its cache for an object: the other caches stay as they are. */
  method NextObject(pool: MemoryCache, caches: seq<TlsMemoryCache>, i: nat) returns (obj: nat)
    requires System(pool, caches) && i < |caches|
    modifies pool, caches[i], caches[i].frames
    ensures pool.exited ==> pool.pages == pool.maxPages
    ensures !pool.exited ==> System(pool, caches)
    ensures !pool.exited ==>
              forall x: nat :: Conserves(old(caches[i].ShareOf(x)), caches[i].ShareOf(x), Has(Piece(obj, 1), x), pool.pageSize, x)
    ensures !pool.exited ==>
              forall k, x: nat :: 0 <= k < |caches| && k != i ==> caches[k].Unused(x) == old(caches[k].Unused(x))
  {
    obj := caches[i].GetNextObject();
  }

  /** Balance carries over when one cache's share of the object is conserved. */
  lemma StillBalanced(pages: nat, held: nat, amounts: seq<nat>, i: nat, pages': nat, held': nat, unused': nat,
                      handed: seq<nat>, obj: nat, pageSize: nat, x: nat)
    requires i < |amounts| && held + Sum(amounts) + Occurrences(handed, x) == Has(Piece(0, pages * pageSize), x)
    requires Conserves(Share(pages, held, amounts[i]), Share(pages', held', unused'), Has(Piece(obj, 1), x), pageSize, x)
    ensures held' + Sum(amounts[i := unused']) + Occurrences(handed + [obj], x) == Has(Piece(0, pages' * pageSize), x)
  {
    SumUpdate(amounts, i, unused');
    OpenedExtends(pages, pages', pageSize, x);
    assert (handed + [obj])[..|handed|] == handed;
  }

  method NextBalanced(pool: MemoryCache, caches: seq<TlsMemoryCache>, i: nat, ghost handed: seq<nat>) returns (obj: nat)
    requires System(pool, caches) && i < |caches| && Balanced(pool, caches, handed)
    modifies pool, caches[i], caches[i].frames
    ensures pool.exited ==> pool.pages == pool.maxPages
    ensures !pool.exited ==> System(pool, caches) && Balanced(pool, caches, handed + [obj])
  {
    SystemIsReady(pool, caches);
    obj := NextObject(pool, caches, i);
    if !pool.exited {
      SystemIsReady(pool, caches);
      forall x: nat
        ensures pool.Held(x) + UnusedIn(caches, x) + Occurrences(handed + [obj], x) == Has(Piece(0, pool.pages * pool.pageSize), x)
      {
        ghost var amounts := old(Amounts(caches, x));
        assert Amounts(caches, x) == amounts[i := caches[i].Unused(x)];
        StillBalanced(old(pool.pages), old(pool.Held(x)), amounts, i, pool.pages, pool.Held(x), caches[i].Unused(x),
                      handed, obj, pool.pageSize, x);
      }
    }
  }

  lemma BeginsBalanced(pages: nat, held: nat, amounts: seq<nat>, pages': nat, held': nat, unused': nat, handed: seq<nat>,
                       pageSize: nat, x: nat)
    requires held + Sum(amounts) + Occurrences(handed, x) == Has(Piece(0, pages * pageSize), x)
    requires Conserves(Share(pages, held, 0), Share(pages', held', unused'), 0, pageSize, x)
    ensures held' + Sum(amounts + [unused']) + Occurrences(handed, x) == Has(Piece(0, pages' * pageSize), x)
  {
    assert (amounts + [unused'])[..|amounts|] == amounts;
    OpenedExtends(pages, pages', pageSize, x);
  }

  /** A thread starts with a cache of its own: the other caches stay as they are. */
  method BeginThread(pool: MemoryCache, caches: seq<TlsMemoryCache>, cacheMin: nat) returns (c: TlsMemoryCache)
    requires System(pool, caches) && cacheMin >= 1
    modifies pool
    ensures fresh(c) && fresh(c.frames)
    ensures pool.exited ==> cacheMin > pool.pageSize || pool.pages == pool.maxPages
    ensures !pool.exited ==> c.pool == pool && c.Valid() && System(pool, caches + [c])
    ensures !pool.exited ==>
              forall x: nat :: Conserves(old(Share(pool.pages, pool.Held(x), 0)), c.ShareOf(x), 0, pool.pageSize, x)
    ensures !pool.exited ==>
              forall k, x: nat :: 0 <= k < |caches| ==> caches[k].Unused(x) == old(caches[k].Unused(x))
  {
    c := new TlsMemoryCache(pool, cacheMin);
  }

  method BeginBalanced(pool: MemoryCache, caches: seq<TlsMemoryCache>, cacheMin: nat, ghost handed: seq<nat>)
    returns (caches': seq<TlsMemoryCache>)
    requires System(pool, caches) && Balanced(pool, caches, handed) && cacheMin >= 1
    modifies pool
    ensures |caches'| == |caches| + 1 && caches'[..|caches|] == caches && fresh(caches'[|caches|]) && fresh(caches'[|caches|].frames)
    ensures pool.exited ==> cacheMin > pool.pageSize || pool.pages == pool.maxPages
    ensures !pool.exited ==> System(pool, caches') && Balanced(pool, caches', handed)
  {
    SystemIsReady(pool, caches);
    var c := BeginThread(pool, caches, cacheMin);
    caches' := caches + [c];
    if !pool.exited {
      SystemIsReady(pool, caches');
      forall x: nat
        ensures pool.Held(x) + UnusedIn(caches', x) + Occurrences(handed, x) == Has(Piece(0, pool.pages * pool.pageSize), x)
      {
        ghost var amounts := old(Amounts(caches, x));
        assert Amounts(caches', x) == amounts + [c.Unused(x)];
        BeginsBalanced(old(pool.pages), old(pool.Held(x)), amounts, pool.pages, pool.Held(x), c.Unused(x),
                       handed, pool.pageSize, x);
      }
    }
  }

  /** A thread ends and its cache gives everything back: the other caches stay as they are. */
  method EndThread(pool: MemoryCache, caches: seq<TlsMemoryCache>, i: nat)
    requires System(pool, caches) && i < |caches|
    modifies pool, caches[i], caches[i].frames
    ensures System(pool, Without(caches, i))
    ensures forall x: nat :: Conserves(old(caches[i].ShareOf(x)), Share(pool.pages, pool.Held(x), 0), 0, pool.pageSize, x)
    ensures forall k :: 0 <= k < |caches| && k != i ==> caches[k].Valid()
    ensures forall k, x: nat :: 0 <= k < |caches| && k != i ==> caches[k].Unused(x) == old(caches[k].Unused(x))
  {
    caches[i].FreeUnuseObject();
  }

  lemma AmountsWithout(caches: seq<TlsMemoryCache>, i: nat, amounts: seq<nat>, x: nat)
    requires i < |caches| == |amounts| && Ready(Without(caches, i))
    requires forall k :: 0 <= k < |caches| && k != i ==>
               && caches[k].lastFrame < caches[k].frames.Length
               && -1 <= caches[k].lastNum < caches[k].frames[caches[k].lastFrame].size
               && amounts[k] == caches[k].Unused(x)
    ensures Amounts(Without(caches, i), x) == Without(amounts, i)
  {
    var rest := Without(caches, i);
    forall k | 0 <= k < |rest| ensures Amounts(rest, x)[k] == Without(amounts, i)[k] {
      var j := if k < i then k else k + 1;
      assert rest[k] == caches[j];
    }
  }

  lemma EndsBalanced(pages: nat, held: nat, amounts: seq<nat>, i: nat, pages': nat, held': nat, handed: seq<nat>,
                     pageSize: nat, x: nat)
    requires i < |amounts| && held + Sum(amounts) + Occurrences(handed, x) == Has(Piece(0, pages * pageSize), x)
    requires Conserves(Share(pages, held, amounts[i]), Share(pages', held', 0), 0, pageSize, x)
    ensures held' + Sum(Without(amounts, i)) + Occurrences(handed, x) == Has(Piece(0, pages' * pageSize), x)
  {
    SumWithout(amounts, i);
    OpenedExtends(pages, pages', pageSize, x);
  }

  method EndBalanced(pool: MemoryCache, caches: seq<TlsMemoryCache>, i: nat, ghost handed: seq<nat>)
    requires System(pool, caches) && i < |caches| && Balanced(pool, caches, handed)
    modifies pool, caches[i], caches[i].frames
    ensures System(pool, Without(caches, i)) && Balanced(pool, Without(caches, i), handed)
  {
    SystemIsReady(pool, caches);
    EndThread(pool, caches, i);
    ghost var rest := Without(caches, i);
    SystemIsReady(pool, rest);
    forall x: nat
      ensures pool.Held(x) + UnusedIn(rest, x) + Occurrences(handed, x) == Has(Piece(0, pool.pages * pool.pageSize), x)
    {
      ghost var amounts := old(Amounts(caches, x));
      AmountsWithout(caches, i, amounts, x);
      EndsBalanced(old(pool.pages), old(pool.Held(x)), amounts, i, pool.pages, pool.Held(x), handed, pool.pageSize, x);
    }
  }

  /** The threads running after the operations, and the requests they made while running. */
  function Running(ops: seq<Op>): nat {
    if ops == [] then 0 else
    var n := Running(ops[..|ops| - 1]);
    match ops[|ops| - 1]
    case Begin(_) => n + 1
    case Next(_) => n
    case End(i) => if i < n then n - 1 else n
  }

  function Requests(ops: seq<Op>): nat {
    if ops == [] then 0 else
    var op := ops[|ops| - 1];
    Requests(ops[..|ops| - 1]) + if op.Next? && op.cache < Running(ops[..|ops| - 1]) then 1 else 0
  }

  predicate TooBig(ops: seq<Op>, pageSize: nat) {
    exists k :: 0 <= k < |ops| && ops[k].Begin? && ops[k].cacheMin > pageSize
  }

  lemma OpsStep(ops: seq<Op>, n: nat)
    requires n < |ops|
    ensures var r := Running(ops[..n]);
            && Running(ops[..n + 1])
               == (match ops[n] case Begin(_) => r + 1 case Next(_) => r case End(i) => if i < r then r - 1 else r)
            && Requests(ops[..n + 1]) == Requests(ops[..n]) + if ops[n].Next? && ops[n].cache < r then 1 else 0
  {
    assert ops[..n + 1][..n] == ops[..n];
  }

  /** Any operations of any number of threads, in any order, from the first page on. It stops when
      the process exits; an operation of a thread that is not running does nothing. */
  method RunCaches(maxPages: nat, pageSize: nat, debrisMin: nat, ops: seq<Op>)
    returns (pool: MemoryCache, caches: seq<TlsMemoryCache>, handed: seq<nat>)
    requires maxPages >= 1 && debrisMin >= 1
    requires forall k :: 0 <= k < |ops| && ops[k].Begin? ==> ops[k].cacheMin >= 1
    ensures pool.maxPages == maxPages && pool.pageSize == pageSize
    ensures pool.exited ==> pool.pages == maxPages || TooBig(ops, pageSize)
    ensures !pool.exited ==> |caches| == Running(ops) && |handed| == Requests(ops)
    ensures !pool.exited ==>
              && System(pool, caches) && Balanced(pool, caches, handed)
              && forall k, l :: 0 <= k < l < |handed| ==> handed[k] != handed[l]
  {
    pool := new MemoryCache(maxPages, pageSize, debrisMin);
    caches, handed := [], [];
    var n := 0;
    while n < |ops| && !pool.exited
      invariant 0 <= n <= |ops| && fresh(pool) && pool.maxPages == maxPages && pool.pageSize == pageSize
      invariant !pool.exited ==> |caches| == Running(ops[..n]) && |handed| == Requests(ops[..n])
      invariant pool.exited ==> pool.pages == maxPages || TooBig(ops, pageSize)
      invariant forall k :: 0 <= k < |caches| ==> fresh(caches[k]) && fresh(caches[k].frames)
      invariant !pool.exited ==> System(pool, caches) && Balanced(pool, caches, handed)
      decreases |ops| - n
    {
      OpsStep(ops, n);
      match ops[n] {
        case Begin(cacheMin) =>
          caches := BeginBalanced(pool, caches, cacheMin, handed);
        case Next(i) =>
          if i < |caches| {
            var obj := NextBalanced(pool, caches, i, handed);
            handed := handed + [obj];
          }
        case End(i) =>
          if i < |caches| {
            EndBalanced(pool, caches, i, handed);
            caches := Without(caches, i);
          }
      }
      n := n + 1;
    }
    assert ops[..|ops|] == ops;
    if !pool.exited {
      HandedOutOnce(pool, caches, handed);
    }
  }

  lemma HandedOutOnce(pool: MemoryCache, caches: seq<TlsMemoryCache>, handed: seq<nat>)
    requires System(pool, caches) && Balanced(pool, caches, handed)
    ensures forall k, l :: 0 <= k < l < |handed| ==> handed[k] != handed[l]
  {
    forall k, l | 0 <= k < l < |handed| ensures handed[k] != handed[l] {
      PoolIsConserved(pool, caches, handed, handed[k]);
      HandedTwice(handed, k, l);
    }
  }

  lemma {:induction false} HandedTwice(handed: seq<nat>, k: nat, l: nat)
    requires k < l < |handed|
    ensures Occurrences(handed, handed[l]) >= 1
    ensures handed[k] == handed[l] ==> Occurrences(handed, handed[k]) >= 2
  {
    var last := |handed| - 1;
    if l < last {
      HandedTwice(handed[..last], k, l);
    } else {
      HandedOnce(handed[..last], k);
    }
  }

  lemma {:induction false} HandedOnce(handed: seq<nat>, k: nat)
    requires k < |handed|
    ensures Occurrences(handed, handed[k]) >= 1
  {
    if k < |handed| - 1 {
      HandedOnce(handed[..|handed| - 1], k);
    }
  }

  /** Each object of the opened pages is in exactly one place, and an object handed out is nowhere
      else. */
  lemma PoolIsConserved(pool: MemoryCache, caches: seq<TlsMemoryCache>, handed: seq<nat>, x: nat)
    requires System(pool, caches) && Balanced(pool, caches, handed)
    ensures Ready(caches)
    ensures x < pool.pages * pool.pageSize <==> pool.Held(x) + UnusedIn(caches, x) + Occurrences(handed, x) == 1
    ensures Occurrences(handed, x) <= 1 && pool.Held(x) <= 1
    ensures forall k :: 0 <= k < |caches| ==> caches[k].Unused(x) <= 1 - Occurrences(handed, x) - pool.Held(x)
  {
    SystemIsReady(pool, caches);
    forall k | 0 <= k < |caches| ensures caches[k].Unused(x) <= UnusedIn(caches, x) {
      SumWithout(Amounts(caches, x), k);
    }
  }
}
