/** Shadow memory seen by one thread: addresses split over two directory levels and an offset,
    pages created on demand, and the writer of address ranges. */
module ShadowSpace {

  const PAGE: nat := 0x10000        // SHADOW_PAGE_SIZE
  const LEVEL2: nat := 0x1000       // entries of a page table
  const LEVEL1: nat := 0x100000     // entries of the page directory
  const SPACE: nat := 0x1000000000000
  const WORD: nat := 0x1_0000_0000_0000_0000

  datatype ObjectType = Unknown | Stack | Dynamic | Static

  /** `data_handle_t`; zeroed memory reads as the unknown object. */
  datatype DataHandle = DataHandle(objectType: ObjectType, path: int)

  const UNKNOWN := DataHandle(Unknown, 0)

  function Slot1(addr: nat): nat { addr / (LEVEL2 * PAGE) % LEVEL1 }
  function Slot2(addr: nat): nat { addr / PAGE % LEVEL2 }
  function Offset(addr: nat): nat { addr % PAGE }

  /** Two addresses share a cell iff they agree modulo 2^48: below that the split is injective. */
  lemma SplitInjective(a: nat, b: nat)
    ensures Slot1(a) == Slot1(b) && Slot2(a) == Slot2(b) && Offset(a) == Offset(b) <==> a % SPACE == b % SPACE
  {
    SplitCell(a);
    SplitCell(b);
  }

  lemma SplitCell(a: nat)
    ensures a % SPACE == (Slot1(a) * LEVEL2 + Slot2(a)) * PAGE + Offset(a)
    ensures Slot1(a % SPACE) == Slot1(a) && Slot2(a % SPACE) == Slot2(a) && Offset(a % SPACE) == Offset(a)
  {
    var h := a / (LEVEL2 * PAGE);
    assert a == a / PAGE * PAGE + Offset(a);
    assert a / PAGE == h * LEVEL2 + Slot2(a);
    assert h == h / LEVEL1 * LEVEL1 + Slot1(a);
  }

  /** Moving on inside a page keeps both slots. */
  lemma SamePage(a: nat, i: nat)
    requires Offset(a) + i < PAGE
    ensures Slot1(a + i) == Slot1(a) && Slot2(a + i) == Slot2(a) && Offset(a + i) == Offset(a) + i
  {
    assert a + i == a / PAGE * PAGE + (Offset(a) + i);
    assert (a + i) / PAGE == a / PAGE;
    assert a / (LEVEL2 * PAGE) == a / PAGE / LEVEL2;
    assert (a + i) / (LEVEL2 * PAGE) == (a + i) / PAGE / LEVEL2;
  }

  type Page = seq<DataHandle>

  class ShadowMemory {
    var directory: map<nat, map<nat, Page>>

    ghost predicate Valid()
      reads this
    {
      forall i, j :: i in directory && j in directory[i] ==> |directory[i][j]| == PAGE
    }

    /** The total map that the directory stands for. */
    ghost function View(addr: nat): DataHandle
      requires Valid()
      reads this
    {
      if Slot1(addr) in directory && Slot2(addr) in directory[Slot1(addr)]
      then directory[Slot1(addr)][Slot2(addr)][Offset(addr)] else UNKNOWN
    }

    constructor ()
      ensures Valid() && forall a :: View(a) == UNKNOWN
    {
      directory := map[];
    }

    ghost predicate Present(addr: nat)
      reads this
    {
      Slot1(addr) in directory && Slot2(addr) in directory[Slot1(addr)]
    }

    /** `GetOrCreateShadowBaseAddress`: a missing table or page is created zeroed. */
    method GetOrCreate(addr: nat)
      requires Valid()
      modifies this
      ensures Valid() && Present(addr) && forall a :: View(a) == old(View(a))
    {
      var i, j := Slot1(addr), Slot2(addr);
      if i !in directory {
        directory := directory[i := map[]];
      }
      if j !in directory[i] {
        directory := directory[i := directory[i][j := seq(PAGE, _ => UNKNOWN)]];
      }
    }

    /** `status[i] = initializer`, with `status` pointing at the cell of `addr`. */
    method Store(addr: nat, i: nat, value: DataHandle)
      requires Valid() && Present(addr) && Offset(addr) + i < PAGE
      modifies this
      ensures Valid() && Present(addr)
      ensures forall a: nat :: View(a) == if a % SPACE == (addr + i) % SPACE then value else old(View(a))
    {
      var s1, s2 := Slot1(addr), Slot2(addr);
      SamePage(addr, i);
      forall a: nat
        ensures a % SPACE == (addr + i) % SPACE
                <==> Slot1(a) == s1 && Slot2(a) == s2 && Offset(a) == Offset(addr) + i
      {
        SplitInjective(a, addr + i);
      }
      directory := directory[s1 := directory[s1][s2 := directory[s1][s2][Offset(addr) + i := value]]];
    }

    /** `GetShadowAddress` followed by the read, as `drcctlib_get_data_hndl_ignore_stack_data` does. */
    method Read(addr: nat) returns (value: DataHandle)
      requires Valid()
      ensures value == View(addr)
    {
      value := UNKNOWN;
      var i, j := Slot1(addr), Slot2(addr);
      if i in directory && j in directory[i] {
        value := directory[i][j][Offset(addr)];
      }
    }

    /** `init_shadow_memory_space`: exactly the cells of the range change, over any number of
        page boundaries. A range whose end wraps around the 64-bit word is not written at all. */
    method InitShadowMemorySpace(addr: nat, len: nat, value: DataHandle)
      requires Valid() && addr < WORD && len < 0x1_0000_0000
      modifies this
      ensures Valid()
      ensures forall a: nat :: View(a) == if InRange(a, addr, if addr + len < WORD then len else 0) then value else old(View(a))
    {
      var end := (addr + len) % WORD;
      var cur := addr;
      forall a: nat ensures !InRange(a, addr, 0) { NothingInRange(a, addr); }
      while cur < end
        invariant Valid() && addr <= cur && (cur <= end || cur == addr)
        invariant forall a: nat :: View(a) == if InRange(a, addr, cur - addr) then value else old(View(a))
        decreases end - cur
      {
        var status := cur;
        GetOrCreate(status);
        var maxBytes := PAGE - Offset(cur);
        var i := 0;
        while i < maxBytes && cur < end
          invariant Valid() && Present(status) && cur == status + i && i <= maxBytes && cur <= end
          invariant i > 0 || cur < end
          invariant forall a: nat :: View(a) == if InRange(a, addr, cur - addr) then value else old(View(a))
          decreases end - cur
        {
          forall a: nat
            ensures InRange(a, addr, cur + 1 - addr) <==> InRange(a, addr, cur - addr) || a % SPACE == (status + i) % SPACE
          {
            RangeGrows(a, addr, cur - addr);
          }
          Store(status, i, value);
          i, cur := i + 1, cur + 1;
        }
      }
    }
  }

  /** Some address of [addr, addr + len) has the cell of `a`. */
  predicate InRange(a: nat, addr: nat, len: nat) {
    (a - addr) % SPACE < len
  }

  lemma NothingInRange(a: nat, addr: nat)
    ensures !InRange(a, addr, 0)
  {
  }

  lemma RangeGrows(a: nat, addr: nat, len: nat)
    requires len < SPACE
    ensures InRange(a, addr, len + 1) <==> InRange(a, addr, len) || a % SPACE == (addr + len) % SPACE
  {
  }

  /** For a range below 2^48 the cells are the addresses themselves. */
  lemma RangeBelowSpace(a: nat, addr: nat, len: nat)
    requires a < SPACE && addr + len <= SPACE
    ensures InRange(a, addr, len) <==> addr <= a < addr + len
  {
    if a < addr {
      assert (a - addr) % SPACE == a - addr + SPACE;
    }
  }
}
