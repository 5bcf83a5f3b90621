// Byte regions of the user half of an address space, and the page arithmetic on them.
// Models `Region`, `Page::containing_address`, `round_up_pages` and `page_range_containing`.
module Regions {
  const PAGE_SIZE: nat := 4096
  // 256 top-level entries of 0x80_0000_0000 bytes each.
  const USER_END: nat := 0x8000_0000_0000

  datatype Option<+T> = None | Some(value: T)

  predicate Aligned(x: int) {
    x % PAGE_SIZE == 0
  }

  // The address of the page that contains `x`.
  function PageOf(x: nat): (p: nat)
    ensures Aligned(p) && p <= x < p + PAGE_SIZE
    ensures Aligned(x) ==> p == x
  {
    x / PAGE_SIZE * PAGE_SIZE
  }

  // The address of the `n`th page after `base`.
  function PageAt(base: nat, n: nat): nat {
    base + n * PAGE_SIZE
  }

  function RoundUp(x: nat): (r: nat)
    ensures Aligned(r) && x <= r < x + PAGE_SIZE
    ensures Aligned(x) ==> r == x
  {
    (x + PAGE_SIZE - 1) / PAGE_SIZE * PAGE_SIZE
  }

  datatype Region = Region(start: nat, size: nat) {
    function End(): nat {
      start + size
    }

    predicate Has(b: int) {
      start <= b < start + size
    }

    predicate IsEmpty() {
      size == 0
    }

    // Both ends on a page boundary, at least one page, inside user space.
    predicate IsPageRange() {
      Aligned(start) && Aligned(size) && size > 0 && End() <= USER_END
    }

    // `end.saturating_sub(start)`: an inverted pair of bounds gives an empty region.
    static function Between(lo: nat, hi: nat): (r: Region)
      ensures forall b :: r.Has(b) <==> lo <= b < hi
    {
      Region(lo, if hi < lo then 0 else hi - lo)
    }

    function Intersect(other: Region): (r: Region)
      ensures forall b :: r.Has(b) <==> Has(b) && other.Has(b)
    {
      Between(if start < other.start then other.start else start,
              if End() < other.End() then End() else other.End())
    }

    function Round(): (r: Region)
      ensures r.start == start && size <= r.size < size + PAGE_SIZE && Aligned(r.size)
    {
      Region(start, RoundUp(size))
    }

    // Strict on the right: the last byte of `this` does not collide.
    predicate Collides(other: Region) {
      start <= other.start && other.End() - start < size
    }

    predicate Occupies(other: Region) {
      Round().Collides(other)
    }

    function Before(inner: Region): (r: Option<Region>)
      requires start <= inner.start
      ensures r.None? <==> start == inner.start
      ensures r.Some? ==> r.value.start == start && r.value.End() == inner.start
    {
      var reg := Between(start, inner.start);
      if reg.IsEmpty() then None else Some(reg)
    }

    function After(inner: Region): (r: Option<Region>)
      requires inner.End() <= End()
      ensures r.None? <==> End() == inner.End()
      ensures r.Some? ==> r.value.start == inner.End() && r.value.End() == End()
    {
      var reg := Between(inner.End(), End());
      if reg.IsEmpty() then None else Some(reg)
    }

    // Move an address of this region to the same offset of another one.
    function Rebase(newBase: Region, address: nat): (r: nat)
      requires start <= address
      ensures Has(address) && newBase.size == size ==> newBase.Has(r)
    {
      newBase.start + (address - start)
    }
  }

  // A byte query misses exactly the last byte of a page-sized region; a query at a page boundary
  // is therefore exact.
  lemma OccupiesByte(r: Region, a: nat)
    requires r.IsPageRange()
    ensures r.Occupies(Region(a, 1)) <==> r.Has(a) && a != r.End() - 1
    ensures Aligned(a) ==> (r.Occupies(Region(a, 1)) <==> r.Has(a))
  {
  }

  // `base..base+size` as first page, page count and offset into the first page.
  function PageRangeContaining(base: nat, size: nat): (r: (nat, nat, nat))
    ensures r.0 == PageOf(base) && r.0 + r.2 == base && r.2 < PAGE_SIZE
    ensures base + size <= r.0 + r.1 * PAGE_SIZE < base + size + PAGE_SIZE
  {
    var first := PageOf(base);
    var offset := base - first;
    (first, (size + offset + PAGE_SIZE - 1) / PAGE_SIZE, offset)
  }
}
