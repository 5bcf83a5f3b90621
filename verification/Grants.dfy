// The grants of an address space and the free-interval map kept beside them.
// Models `Grant`, `Region` queries on the grant set, and `UserGrants`.
module Grants {
  import opened Regions
  import opened Ordered
  import opened Holes

  datatype Errno = EINVAL | ENOMEM | EEXIST | EOPNOTSUPP | EACCES | EFAULT | EAGAIN

  datatype Result<+T> = Ok(value: T) | Err(error: Errno)

  datatype MapFlags = MapFlags(write: bool, exec: bool, fixed: bool, noReplace: bool)

  // `custom` stands for every page-table bit other than the three named ones.
  datatype PageFlags = PageFlags(user: bool, write: bool, execute: bool, custom: nat)

  function PageFlagsOf(flags: MapFlags): PageFlags {
    PageFlags(true, flags.write, flags.exec, 0)
  }

  datatype FileRef = FileRef(description: nat, scheme: nat, offset: nat)

  // Everything a grant says about each of its bytes.
  datatype Attrs = Attrs(flags: PageFlags, owned: bool, allocatorOwned: bool, desc: Option<FileRef>) {
    predicate CanHaveFlags(f: MapFlags) {
      owned || ((flags.write || !f.write) && (flags.execute || !f.exec))
    }

    function Protect(f: MapFlags): Attrs {
      this.(flags := flags.(execute := f.exec, write := f.write))
    }

    predicate OwnsFrames() {
      owned && allocatorOwned
    }
  }

  datatype Grant = Grant(region: Region, attrs: Attrs) {
    // Split `piece` out: what lies before it, the piece, what lies after it.
    function Extract(piece: Region): (r: (Option<Grant>, Grant, Option<Grant>))
      requires Aligned(piece.start) && Aligned(piece.size)
      requires region.start <= piece.start && piece.End() <= region.End()
      ensures r.1 == Grant(piece, attrs)
      ensures r.0.Some? ==> r.0.value.attrs == attrs
      ensures r.2.Some? ==> r.2.value.attrs == attrs
      ensures forall b :: region.Has(b) <==>
                          piece.Has(b) || (r.0.Some? && r.0.value.region.Has(b)) ||
                            (r.2.Some? && r.2.value.region.Has(b))
    {
      var before := region.Before(piece);
      var after := region.After(piece);
      (if before.None? then None else Some(Grant(before.value, attrs)),
       Grant(piece, attrs),
       if after.None? then None else Some(Grant(after.value, attrs)))
    }
  }

  // The grant set, ordered by and keyed by start address.
  type Inner = map<nat, Grant>

  ghost predicate WellFormed(inner: Inner) {
    && (forall k :: k in inner ==> inner[k].region.start == k && inner[k].region.IsPageRange())
    && (forall i, j :: i in inner && j in inner && i < j ==> inner[i].region.End() <= j)
  }

  ghost predicate Covered(inner: Inner, b: int) {
    exists k :: k in inner && inner[k].region.Has(b)
  }

  // The attributes of the grant over byte `b`, if any.
  ghost function AttrsAt(inner: Inner, b: int): Option<Attrs> {
    if Covered(inner, b) then
      var k :| k in inner && inner[k].region.Has(b);
      Some(inner[k].attrs)
    else None
  }

  lemma AttrsAtKey(inner: Inner, k: nat, b: int)
    requires WellFormed(inner) && k in inner && inner[k].region.Has(b)
    ensures AttrsAt(inner, b) == Some(inner[k].attrs)
  {
  }

  // Every byte of `r` is in user space and in no grant.
  ghost predicate IsFree(inner: Inner, r: Region) {
    forall b :: r.Has(b) ==> b < USER_END && !Covered(inner, b)
  }

  predicate Overlaps(r: Region, s: Region) {
    !r.Intersect(s).IsEmpty()
  }

  /// Queries

  function Contains(inner: Inner, address: nat): (r: Option<Grant>) {
    var k := Floor(inner.Keys, address);
    if k.Some? && inner[k.value].region.Occupies(Region(address, 1)) then Some(inner[k.value]) else None
  }

  // Exact at every byte that is not the last one of a grant, so at every page boundary.
  lemma ContainsExact(inner: Inner, address: nat)
    requires WellFormed(inner)
    ensures Contains(inner, address).Some? ==>
              var g := Contains(inner, address).value;
                g.region.start in inner && inner[g.region.start] == g && g.region.Has(address)
    ensures Aligned(address) ==> (Contains(inner, address).Some? <==> Covered(inner, address))
    ensures Contains(inner, address).Some? <==>
            exists k :: k in inner && inner[k].region.Has(address) && address != inner[k].region.End() - 1
  {
    var k := Floor(inner.Keys, address);
    if k.Some? {
      OccupiesByte(inner[k.value].region, address);
    }
    forall j | j in inner && inner[j].region.Has(address)
      ensures k == Some(j)
    {}
  }

  // A grant over page 1 whose last byte is not found.
  lemma ContainsMissesLastByte(attrs: Attrs)
    ensures var inner := map[PAGE_SIZE := Grant(Region(PAGE_SIZE, PAGE_SIZE), attrs)];
            WellFormed(inner) && Covered(inner, 2 * PAGE_SIZE - 1) && Contains(inner, 2 * PAGE_SIZE - 1).None?
  {
    var inner := map[PAGE_SIZE := Grant(Region(PAGE_SIZE, PAGE_SIZE), attrs)];
    assert inner[PAGE_SIZE].region.Has(2 * PAGE_SIZE - 1);
    ContainsExact(inner, 2 * PAGE_SIZE - 1);
  }

  function KeysFrom(keys: seq<nat>, from: nat): (r: seq<nat>)
    ensures r == [] || from <= r[0]
    ensures forall k :: k in r ==> k in keys
    ensures forall k :: k in keys && k !in r ==> k < from
    ensures StrictlySorted(keys) ==> StrictlySorted(r)
  {
    if keys == [] || from <= keys[0] then keys else KeysFrom(keys[1..], from)
  }

  function WhileOverlapping(inner: Inner, keys: seq<nat>, requested: Region): (r: seq<nat>)
    requires forall k :: k in keys ==> k in inner
    ensures r <= keys
    ensures forall k :: k in r ==> Overlaps(inner[k].region, requested)
    ensures |r| < |keys| ==> !Overlaps(inner[keys[|r|]].region, requested)
  {
    if keys == [] || !Overlaps(inner[keys[0]].region, requested) then []
    else [keys[0]] + WhileOverlapping(inner, keys[1..], requested)
  }

  function Conflicts(inner: Inner, requested: Region): (r: seq<nat>)
    ensures forall k :: k in r ==> k in inner && Overlaps(inner[k].region, requested)
    ensures StrictlySorted(r)
  {
    var first := Contains(inner, requested.start);
    var from := if first.Some? then first.value.region.start else requested.start;
    WhileOverlapping(inner, KeysFrom(Ascending(inner.Keys), from), requested)
  }

  // No overlapping grant starts before the key the walk begins at.
  lemma WalkStartsLow(inner: Inner, requested: Region, k: nat)
    requires WellFormed(inner) && Aligned(requested.start)
    requires k in inner && Overlaps(inner[k].region, requested)
    ensures var first := Contains(inner, requested.start);
            (if first.Some? then first.value.region.start else requested.start) <= k
  {
    ContainsExact(inner, requested.start);
    if inner[k].region.Has(requested.start) {
      assert Covered(inner, requested.start);
    }
  }

  // The walk from the first candidate finds every overlapping grant although it stops at the
  // first one that does not overlap.
  lemma ConflictsExact(inner: Inner, requested: Region)
    requires WellFormed(inner) && Aligned(requested.start)
    ensures forall k :: k in inner && Overlaps(inner[k].region, requested) ==> k in Conflicts(inner, requested)
  {
    forall k | k in inner && Overlaps(inner[k].region, requested)
      ensures k in Conflicts(inner, requested)
    {
      ConflictFound(inner, requested, k);
    }
  }

  lemma ConflictFound(inner: Inner, requested: Region, k: nat)
    requires WellFormed(inner) && Aligned(requested.start)
    requires k in inner && Overlaps(inner[k].region, requested)
    ensures k in Conflicts(inner, requested)
  {
    hide Overlaps, Contains, Aligned, KeysFrom, WhileOverlapping;
    ContainsExact(inner, requested.start);
    WalkStartsLow(inner, requested, k);
    var first := Contains(inner, requested.start);
    var from := if first.Some? then first.value.region.start else requested.start;
    WalkFinds(inner, requested, from, KeysFrom(Ascending(inner.Keys), from), k);
  }

  lemma WalkFinds(inner: Inner, requested: Region, from: nat, keys: seq<nat>, k: nat)
    requires WellFormed(inner) && StrictlySorted(keys) && (forall j :: j in keys ==> j in inner) && k in keys
    requires from <= keys[0]
    requires from in inner ==> inner[from].region.Has(requested.start) || requested.start <= from
    requires from !in inner ==> requested.start <= from
    requires Overlaps(inner[k].region, requested)
    ensures k in WhileOverlapping(inner, keys, requested)
  {
    hide Overlaps, WhileOverlapping, WellFormed;
    var found := WhileOverlapping(inner, keys, requested);
    var i :| 0 <= i < |keys| && keys[i] == k;
    if |found| <= i {
      assert keys[|found|] in keys;
      WalkGoesOn(inner, requested, from, keys[|found|], k);
    } else {
      assert found[i] == k;
    }
  }

  // A grant passed on the way to an overlapping one overlaps too.
  lemma WalkGoesOn(inner: Inner, requested: Region, from: nat, stop: nat, k: nat)
    requires WellFormed(inner) && k in inner && stop in inner && from <= stop <= k
    requires from in inner ==> inner[from].region.Has(requested.start) || requested.start <= from
    requires from !in inner ==> requested.start <= from
    requires Overlaps(inner[k].region, requested)
    ensures Overlaps(inner[stop].region, requested)
  {
  }

  lemma OverlapByte(r: Region, s: Region, b: int)
    requires r.Has(b) && s.Has(b)
    ensures Overlaps(r, s)
  {
  }

  // Nothing overlaps exactly when nothing is found.
  lemma NoConflicts(inner: Inner, requested: Region)
    requires WellFormed(inner) && Aligned(requested.start)
    ensures Conflicts(inner, requested) == [] <==> forall b :: requested.Has(b) ==> !Covered(inner, b)
  {
    ConflictsExact(inner, requested);
    var found := Conflicts(inner, requested);
    forall k, b | k in inner && inner[k].region.Has(b) && requested.Has(b)
      ensures k in found
    {
      OverlapByte(inner[k].region, requested, b);
    }
    if found != [] {
      var k := found[0];
      var b := inner[k].region.Intersect(requested).start;
      assert inner[k].region.Intersect(requested).Has(b);
      assert Covered(inner, b);
    }
  }

  /// Grants and holes together

  datatype UserGrants = UserGrants(inner: Inner, holes: Intervals) {
    // The holes are the maximal free intervals: separated, and the complement of the grants.
    ghost predicate Valid() {
      && WellFormed(inner)
      && Separated(holes)
      && (forall b :: InHole(holes, b) <==> 0 <= b < USER_END && !Covered(inner, b))
    }
  }

  const EMPTY_GRANTS: UserGrants := UserGrants(map[], map[0 := USER_END])

  lemma EmptyGrantsValid()
    ensures EMPTY_GRANTS.Valid()
  {
    forall b
      ensures InHole(EMPTY_GRANTS.holes, b) <==> 0 <= b < USER_END && !Covered(EMPTY_GRANTS.inner, b)
    {
      assert 0 in EMPTY_GRANTS.holes && (Region(0, EMPTY_GRANTS.holes[0]).Has(b) <==> 0 <= b < USER_END);
    }
  }

  // Equal coverage forces equal holes.
  lemma HolesDetermined(u: UserGrants, v: UserGrants)
    requires u.Valid() && v.Valid()
    requires forall b :: Covered(u.inner, b) <==> Covered(v.inner, b)
    ensures u.holes == v.holes
  {
    HolesUnique(u.holes, v.holes);
  }

  lemma CoveredAfterAdd(inner: Inner, g: Grant, b: int)
    requires g.region.start !in inner
    ensures Covered(inner[g.region.start := g], b) <==> Covered(inner, b) || g.region.Has(b)
  {
    var n := inner[g.region.start := g];
    if Covered(inner, b) {
      var k :| k in inner && inner[k].region.Has(b);
      assert k in n && n[k].region.Has(b);
    }
    if g.region.Has(b) {
      assert g.region.start in n && n[g.region.start].region.Has(b);
    }
  }

  lemma FreeKey(inner: Inner, r: Region)
    requires WellFormed(inner) && r.size > 0 && IsFree(inner, r)
    ensures forall k :: k in inner ==> inner[k].region.End() <= r.start || r.End() <= k
  {
    forall k | k in inner
      ensures inner[k].region.End() <= r.start || r.End() <= k
    {
      var b := if k < r.start then r.start else k;
      assert inner[k].region.Has(b) && r.Has(b) ==> Covered(inner, b);
    }
  }

  // `UserGrants::insert`; its assertion that nothing conflicts is the precondition.
  function Insert(u: UserGrants, g: Grant): (r: UserGrants)
    requires u.Valid() && g.region.IsPageRange() && IsFree(u.inner, g.region)
    ensures r.Valid()
    ensures r.inner == u.inner[g.region.start := g] && g.region.start !in u.inner
  {
    assert forall b :: g.region.Has(b) ==> InHole(u.holes, b);
    assert g.region.start !in u.inner by { FreeKey(u.inner, g.region); }
    var r := UserGrants(u.inner[g.region.start := g], Reserve(u.holes, g.region));
    assert r.Valid() by { InsertValid(u, g); }
    r
  }

  lemma InsertValid(u: UserGrants, g: Grant)
    requires u.Valid() && g.region.IsPageRange() && IsFree(u.inner, g.region)
    requires forall b :: g.region.Has(b) ==> InHole(u.holes, b)
    ensures UserGrants(u.inner[g.region.start := g], Reserve(u.holes, g.region)).Valid()
  {
    FreeKey(u.inner, g.region);
    ReserveExact(u.holes, g.region);
    forall b
      ensures Covered(u.inner[g.region.start := g], b) <==> Covered(u.inner, b) || g.region.Has(b)
    {
      CoveredAfterAdd(u.inner, g, b);
    }
  }

  // `UserGrants::take`, by start address.
  function Take(u: UserGrants, k: nat): (r: (Option<Grant>, UserGrants))
    requires u.Valid()
    ensures r.1.Valid()
    ensures k !in u.inner ==> r == (None, u)
    ensures k in u.inner ==> r.0 == Some(u.inner[k]) && r.1.inner == u.inner - {k}
  {
    if k !in u.inner then (None, u) else
      var r := UserGrants(u.inner - {k}, Unreserve(u.holes, u.inner[k].region));
      assert r.Valid() by { TakeValid(u, k); }
      (Some(u.inner[k]), r)
  }

  lemma TakeValid(u: UserGrants, k: nat)
    requires u.Valid() && k in u.inner
    ensures UserGrants(u.inner - {k}, Unreserve(u.holes, u.inner[k].region)).Valid()
  {
    var rest := u.inner - {k};
    var r := u.inner[k].region;
    assert forall b :: r.Has(b) ==> Covered(u.inner, b);
    UnreserveExact(u.holes, r);
    forall b
      ensures Covered(u.inner, b) <==> Covered(rest, b) || r.Has(b)
      ensures r.Has(b) ==> !Covered(rest, b)
    {
      assert rest[k := u.inner[k]] == u.inner;
      CoveredAfterAdd(rest, u.inner[k], b);
    }
  }

  /// First fit

  function SkipBelow(holes: Intervals, keys: seq<nat>, min: nat): (r: seq<nat>)
    requires forall k :: k in keys ==> k in holes
    ensures forall k :: k in r ==> k in keys
    ensures forall k :: k in keys && k !in r ==> k + holes[k] <= min
    ensures r != [] ==> min < r[0] + holes[r[0]]
    ensures StrictlySorted(keys) ==> StrictlySorted(r)
  {
    if keys == [] || min < keys[0] + holes[keys[0]] then keys else SkipBelow(holes, keys[1..], min)
  }

  function Available(start: nat, size: nat, min: nat): int {
    if start <= min <= start + size then size - (min - start) else size
  }

  function FirstFit(holes: Intervals, keys: seq<nat>, min: nat, size: nat): (r: Option<nat>)
    requires forall k :: k in keys ==> k in holes
    ensures r.Some? ==> r.value in keys && size <= Available(r.value, holes[r.value], min)
    ensures r.Some? && StrictlySorted(keys) ==> forall k :: k in keys && k < r.value ==>
              size > Available(k, holes[k], min)
    ensures r.None? ==> forall k :: k in keys ==> size > Available(k, holes[k], min)
  {
    if keys == [] then None
    else if size <= Available(keys[0], holes[keys[0]], min) then Some(keys[0])
    else FirstFit(holes, keys[1..], min, size)
  }

  function FindFree(holes: Intervals, min: nat, size: nat): (r: Option<Region>) {
    var hole := FirstFit(holes, SkipBelow(holes, Ascending(holes.Keys), min), min, size);
    if hole.None? then None else Some(Region(if min < hole.value then hole.value else min, size))
  }

  // Brute-force candidate: every byte of the stretch is in user space and in no grant. A request
  // for no bytes still needs one free byte to stand on.
  ghost predicate Fits(u: UserGrants, min: nat, size: nat, a: nat) {
    min <= a && IsFree(u.inner, Region(a, if size == 0 then 1 else size))
  }

  lemma FindFreeFits(u: UserGrants, min: nat, size: nat)
    requires u.Valid()
    ensures FindFree(u.holes, min, size).Some? ==> Fits(u, min, size, FindFree(u.holes, min, size).value.start)
    ensures FindFree(u.holes, min, size).Some? ==> FindFree(u.holes, min, size).value.size == size
  {
    var keys := SkipBelow(u.holes, Ascending(u.holes.Keys), min);
    var hole := FirstFit(u.holes, keys, min, size);
    if hole.Some? {
      var k := hole.value;
      var i :| 0 <= i < |keys| && keys[i] == k;
      assert keys[0] == k || keys[0] < k;
      assert min < k + u.holes[k];
      var want := Region(FindFree(u.holes, min, size).value.start, if size == 0 then 1 else size);
      forall b | want.Has(b)
        ensures b < USER_END && !Covered(u.inner, b)
      {
        assert Region(k, u.holes[k]).Has(b);
        assert InHole(u.holes, b);
      }
      assert IsFree(u.inner, want);
    }
  }

  lemma FindFreeLeast(u: UserGrants, min: nat, size: nat, a: nat)
    requires u.Valid() && Fits(u, min, size, a)
    ensures FindFree(u.holes, min, size).Some? && FindFree(u.holes, min, size).value.start <= a
  {
    var all := Ascending(u.holes.Keys);
    var keys := SkipBelow(u.holes, all, min);
    var hole := FirstFit(u.holes, keys, min, size);
    var want := Region(a, if size == 0 then 1 else size);
    forall b | want.Has(b)
      ensures InHole(u.holes, b)
    {}
    var j := StretchInOneHole(u.holes, want);
    assert j in all && j in keys;
    assert size <= Available(j, u.holes[j], min);
  }

  // First fit over the holes is least fit over the grants.
  lemma FindFreeRefinesSearch(u: UserGrants, min: nat, size: nat)
    requires u.Valid()
    ensures match FindFree(u.holes, min, size)
            case None => forall a :: !Fits(u, min, size, a)
            case Some(r) => r.size == size && Fits(u, min, size, r.start) && forall a :: Fits(u, min, size, a) ==>
              r.start <= a
  {
    FindFreeFits(u, min, size);
    forall a: nat | Fits(u, min, size, a)
      ensures FindFree(u.holes, min, size).Some? && FindFree(u.holes, min, size).value.start <= a
    {
      FindFreeLeast(u, min, size, a);
    }
  }

  function FindFreeAt(u: UserGrants, min: nat, address: nat, size: nat, flags: MapFlags): (r: Result<Region>) {
    var anywhere := var f := FindFree(u.holes, min, size); if f.None? then Err(ENOMEM) else Ok(f.value);
    if address == 0 then anywhere
    else if address + size > USER_END || !Aligned(address) then Err(EINVAL)
    else if Conflicts(u.inner, Region(address, size)) == [] then Ok(Region(address, size))
    else if flags.noReplace then Err(EEXIST)
    else if flags.fixed then Err(EOPNOTSUPP)
    else anywhere
  }

  // A chosen region is free, and a usable hint is honoured.
  lemma FindFreeAtExact(u: UserGrants, min: nat, address: nat, size: nat, flags: MapFlags)
    requires u.Valid() && Aligned(min) && Aligned(size) && size > 0
    ensures var r := FindFreeAt(u, min, address, size, flags);
            && (r.Ok? ==> r.value.size == size && r.value.IsPageRange() && IsFree(u.inner, r.value))
            && (address != 0 && Aligned(address) && IsFree(u.inner, Region(address, size)) ==>
                  r == Ok(Region(address, size)))
            && (r.Ok? && address != 0 && (flags.fixed || flags.noReplace) ==> r.value.start == address)
            && (r == Err(ENOMEM) ==> forall a :: !Fits(u, min, size, a))
  {
    FindFreeRefinesSearch(u, min, size);
    FindFreeAligned(u, min, size);
    if Aligned(address) {
      NoConflicts(u.inner, Region(address, size));
      if IsFree(u.inner, Region(address, size)) {
        assert Region(address, size).Has(address + size - 1);
      }
    }
    if FindFree(u.holes, min, size).Some? {
      var r := FindFree(u.holes, min, size).value;
      assert r.Has(r.End() - 1);
    }
  }

  lemma FreeIffNoConflicts(u: UserGrants, r: Region)
    requires u.Valid() && Aligned(r.start) && r.End() <= USER_END
    ensures Conflicts(u.inner, r) == [] <==> IsFree(u.inner, r)
  {
    NoConflicts(u.inner, r);
  }

  // Every outcome, in terms of the grants alone.
  lemma FindFreeAtOutcome(u: UserGrants, min: nat, address: nat, size: nat, flags: MapFlags)
    requires u.Valid() && Aligned(size) && size > 0
    ensures var r := FindFreeAt(u, min, address, size, flags);
            if address != 0 && (address + size > USER_END || !Aligned(address)) then r == Err(EINVAL)
            else if address != 0 && IsFree(u.inner, Region(address, size)) then r == Ok(Region(address, size))
            else if address != 0 && flags.noReplace then r == Err(EEXIST)
            else if address != 0 && flags.fixed then r == Err(EOPNOTSUPP)
            else if r.Ok? then
              && r.value.size == size && Fits(u, min, size, r.value.start)
              && forall a :: Fits(u, min, size, a) ==> r.value.start <= a
            else r == Err(ENOMEM) && forall a :: !Fits(u, min, size, a)
  {
    hide FindFree, Fits, IsFree, UserGrants.Valid, Conflicts, Aligned;
    FindFreeRefinesSearch(u, min, size);
    if Aligned(address) && address + size <= USER_END {
      FreeIffNoConflicts(u, Region(address, size));
    }
  }

  // Page-aligned grants leave page-aligned holes.
  lemma HoleStarts(h: Intervals, k: nat)
    requires Separated(h) && k in h
    ensures InHole(h, k) && !InHole(h, k - 1)
  {
  }

  lemma EndAligned(r: Region)
    requires r.IsPageRange()
    ensures Aligned(r.End())
  {
  }

  lemma ZeroAligned()
    ensures Aligned(0)
  {
  }

  lemma HolesAligned(u: UserGrants, k: nat)
    requires u.Valid() && k in u.holes
    ensures Aligned(k)
  {
    hide Aligned, InHole, Separated;
    if k > 0 {
      HoleStarts(u.holes, k);
      assert Covered(u.inner, k - 1) && !Covered(u.inner, k);
      var g :| g in u.inner && u.inner[g].region.Has(k - 1);
      assert !u.inner[g].region.Has(k);
      EndAligned(u.inner[g].region);
    } else {
      ZeroAligned();
    }
  }

  lemma FindFreeAligned(u: UserGrants, min: nat, size: nat)
    requires u.Valid() && Aligned(min)
    ensures FindFree(u.holes, min, size).Some? ==> Aligned(FindFree(u.holes, min, size).value.start)
  {
    var hole := FirstFit(u.holes, SkipBelow(u.holes, Ascending(u.holes.Keys), min), min, size);
    if hole.Some? {
      HolesAligned(u, hole.value);
    }
  }
}
