/** The flash device behind `FlashIAP`: sectors of different sizes side by side, written by whole pages. */
module FlashLayout {
  import opened Multiples

  const WRAP: nat := 0x1_0000_0000
  const INVALID_SIZE: nat := 0xFFFF_FFFF

  datatype Layout = Layout(start: nat, sizes: seq<nat>, page: nat)

  /** The address at which sector `i` begins; for `i == |sizes|`, the end of the flash. */
  function StartOf(g: Layout, i: nat): nat
    requires i <= |g.sizes|
  {
    if i == 0 then g.start else StartOf(g, i - 1) + g.sizes[i - 1]
  }

  function End(g: Layout): nat { StartOf(g, |g.sizes|) }

  /** Sectors hold whole pages, begin at multiples of their own size, and end within 32 bits. */
  ghost predicate Valid(g: Layout) {
    && g.page > 0 && End(g) < WRAP
    && forall i :: 0 <= i < |g.sizes| ==> SectorOk(g, i)
  }

  ghost predicate SectorOk(g: Layout, i: nat)
    requires i < |g.sizes| && g.page > 0
  {
    g.sizes[i] > 0 && g.sizes[i] % g.page == 0 && StartOf(g, i) % g.sizes[i] == 0
  }

  /** `flash_get_sector_size`: the size of the sector that holds `addr`. */
  function SectorSize(g: Layout, addr: nat): (size: nat)
    requires g.page > 0
  {
    SizeFrom(g, addr, 0)
  }

  function SizeFrom(g: Layout, addr: nat, i: nat): (size: nat)
    requires i <= |g.sizes|
    decreases |g.sizes| - i
  {
    if i == |g.sizes| then INVALID_SIZE
    else if StartOf(g, i) <= addr < StartOf(g, i + 1) then g.sizes[i]
    else SizeFrom(g, addr, i + 1)
  }

  ghost predicate InSector(g: Layout, addr: nat, i: nat) {
    i < |g.sizes| && StartOf(g, i) <= addr < StartOf(g, i + 1)
  }

  ghost predicate IsSectorStart(g: Layout, addr: nat) {
    exists i :: 0 <= i < |g.sizes| && StartOf(g, i) == addr
  }

  lemma {:induction false} StartsGrow(g: Layout, i: nat, j: nat)
    requires i <= j <= |g.sizes|
    ensures StartOf(g, i) <= StartOf(g, j)
    decreases j
  {
    if i < j {
      StartsGrow(g, i, j - 1);
    }
  }

  lemma StartsApart(g: Layout, i: nat, j: nat)
    requires Valid(g) && i < j <= |g.sizes|
    ensures StartOf(g, i) < StartOf(g, j)
  {
    assert SectorOk(g, i);
    StartsGrow(g, i + 1, j);
  }

  /** An address lies in one sector only. */
  lemma OneSector(g: Layout, addr: nat, i: nat, j: nat)
    requires InSector(g, addr, i) && InSector(g, addr, j)
    ensures i == j
  {
    if i < j {
      StartsGrow(g, i + 1, j);
    } else if j < i {
      StartsGrow(g, j + 1, i);
    }
  }

  lemma {:induction false} SizeFromIs(g: Layout, addr: nat, i: nat, k: nat)
    requires k <= i && InSector(g, addr, i)
    ensures SizeFrom(g, addr, k) == g.sizes[i]
    decreases i - k
  {
    if k < i {
      if InSector(g, addr, k) {
        OneSector(g, addr, i, k);
      }
      SizeFromIs(g, addr, i, k + 1);
    }
  }

  lemma SectorSizeIs(g: Layout, addr: nat, i: nat)
    requires g.page > 0 && InSector(g, addr, i)
    ensures SectorSize(g, addr) == g.sizes[i]
  {
    SizeFromIs(g, addr, i, 0);
  }

  /** Below the flash there is no sector, and the size reported is the invalid one. */
  lemma {:induction false} NoSectorBelow(g: Layout, addr: nat, k: nat)
    requires g.page > 0 && addr < g.start && k <= |g.sizes|
    ensures SizeFrom(g, addr, k) == INVALID_SIZE
    decreases |g.sizes| - k
  {
    if k < |g.sizes| {
      StartsGrow(g, 0, k);
      NoSectorBelow(g, addr, k + 1);
    }
  }

  /** Every address of the flash lies in some sector. */
  lemma {:induction false} FindSector(g: Layout, addr: nat, n: nat) returns (i: nat)
    requires n <= |g.sizes| && g.start <= addr < StartOf(g, n)
    ensures i < n && InSector(g, addr, i)
    decreases n
  {
    if StartOf(g, n - 1) <= addr {
      i := n - 1;
    } else {
      i := FindSector(g, addr, n - 1);
    }
  }

  lemma {:induction false} SizeFromPositive(g: Layout, addr: nat, i: nat)
    requires Valid(g) && i <= |g.sizes|
    ensures SizeFrom(g, addr, i) > 0
    decreases |g.sizes| - i
  {
    if i < |g.sizes| {
      assert SectorOk(g, i);
      SizeFromPositive(g, addr, i + 1);
    }
  }

  // ----- places in a sector

  /** The place of an address in its sector, as `addr % current_sector_size` computes it. */
  lemma PlaceInSector(g: Layout, addr: nat, i: nat)
    requires Valid(g) && InSector(g, addr, i)
    ensures g.sizes[i] > 0 && addr % g.sizes[i] == addr - StartOf(g, i)
  {
    assert SectorOk(g, i);
    AddMod(addr - StartOf(g, i), StartOf(g, i), g.sizes[i]);
    QuotientUnique(addr - StartOf(g, i), g.sizes[i], 0, addr - StartOf(g, i));
  }

  /** Sectors begin and end on page boundaries. */
  lemma BoundariesArePages(g: Layout, i: nat)
    requires Valid(g) && i < |g.sizes|
    ensures StartOf(g, i) % g.page == 0 && StartOf(g, i + 1) % g.page == 0
  {
    assert SectorOk(g, i);
    ModMultiple(StartOf(g, i), g.sizes[i], g.page);
    AddMod(StartOf(g, i), g.sizes[i], g.page);
  }
}
