// `UserGrants` and `AddrSpace` as the kernel has them: objects updated in place, grant by grant and
// page by page. Each method is proved to do what its value-level counterpart says.
module AddrSpaceObjects {
  import opened Regions
  import opened Ordered
  import opened Holes
  import opened Grants
  import opened AddressSpaces
  import opened Frames
  import opened Paging
  import FM = FileMappings

  // Frames owned through pages of `s` are pairwise different and not free.
  ghost predicate OwnedOnce(s: Space, free: set<nat>) {
    && (forall p: nat, q: nat :: Owns(s, p) && Owns(s, q) && s.table[p].frame == s.table[q].frame ==> p == q)
    && (forall p: nat :: Owns(s, p) ==> s.table[p].frame !in free)
  }

  class AddrSpace {
    var inner: Inner
    var holes: Intervals
    var funmap: FM.Funmap
    var mmapMin: nat
    const mapper: PageMapper

    ghost function View(): Space
      reads this, mapper
    {
      Space(UserGrants(inner, holes), mapper.table, mmapMin)
    }

    constructor ()
      ensures View() == NEW_SPACE && View().Valid() && fresh(mapper) && funmap == map[]
    {
      inner := map[];
      holes := map[0 := USER_END];
      funmap := map[];
      mmapMin := PAGE_SIZE;
      mapper := new PageMapper();
      new;
      NewSpaceValid();
    }

    method Reserve(r: Region)
      requires Separated(holes) && r.size > 0 && forall b :: r.Has(b) ==> InHole(holes, b)
      modifies this`holes
      ensures holes == Holes.Reserve(old(holes), r)
    {
      var prev := Below(holes.Keys, r.start);
      if prev.Some? {
        var start := prev.value;
        var prevEnd := start + holes[start];
        if prevEnd > r.start {
          holes := holes[start := r.start - start];
        }
        if prevEnd > r.End() {
          holes := holes[r.End() := prevEnd - r.End()];
        }
      }
      if r.start in holes {
        var remainder := holes[r.start] - r.size;
        holes := holes - {r.start};
        if remainder > 0 {
          holes := holes[r.End() := remainder];
        }
      }
    }

    method Unreserve(r: Region)
      modifies this`holes
      ensures holes == Holes.Unreserve(old(holes), r)
    {
      var afterSize := if r.End() in holes then holes[r.End()] else 0;
      holes := holes - {r.End()};
      var prev := Below(holes.Keys, r.start);
      if prev.Some? && prev.value + holes[prev.value] == r.start {
        holes := holes[prev.value := r.End() - prev.value + afterSize];
      } else {
        holes := holes[r.start := r.size + afterSize];
      }
    }

    method Insert(g: Grant)
      requires UserGrants(inner, holes).Valid() && g.region.IsPageRange() && IsFree(inner, g.region)
      modifies this`inner, this`holes
      ensures UserGrants(inner, holes) == Grants.Insert(old(UserGrants(inner, holes)), g)
    {
      assert forall b :: g.region.Has(b) ==> InHole(holes, b);
      Reserve(g.region);
      inner := inner[g.region.start := g];
    }

    method Take(k: nat) returns (g: Option<Grant>)
      requires UserGrants(inner, holes).Valid()
      modifies this`inner, this`holes
      ensures (g, UserGrants(inner, holes)) == Grants.Take(old(UserGrants(inner, holes)), k)
    {
      if k !in inner {
        return None;
      }
      g := Some(inner[k]);
      inner := inner - {k};
      Unreserve(g.value.region);
    }

    // Take a grant, split the piece out and put the remainders back.
    method CarveOut(k: nat, piece: Region) returns (g: Grant)
      requires CanCarve(UserGrants(inner, holes), k, piece)
      modifies this`inner, this`holes
      ensures UserGrants(inner, holes) == Carve(old(UserGrants(inner, holes)), k, piece)
      ensures g == Grant(piece, old(inner)[k].attrs)
    {
      hide Holes.Reserve, Holes.Unreserve;
      ghost var u := UserGrants(inner, holes);
      ghost var _ := Carve(u, k, piece);
      TakeAttrs(u, k);
      GrantAttrs(u, k);
      ExtractPages(u.inner[k], piece);
      var whole := Take(k);
      var (before, middle, after) := whole.value.Extract(piece);
      if before.Some? {
        InsertAttrs(UserGrants(inner, holes), before.value);
        Insert(before.value);
      }
      if after.Some? {
        Insert(after.value);
      }
      g := middle;
    }

    // One grant of mprotect: split, then refuse or change.
    method ProtectOne(k: nat, piece: Region, flags: MapFlags) returns (ok: bool)
      requires CanCarve(UserGrants(inner, holes), k, piece) && Agree(inner, mapper.table)
      modifies this`inner, this`holes, mapper
      ensures ok == old(inner)[k].attrs.CanHaveFlags(flags)
      ensures var a := old(inner)[k].attrs;
              && UserGrants(inner, holes) ==
                   Refit(old(UserGrants(inner, holes)), k, piece, if ok then a.Protect(flags) else a)
              && mapper.table == if ok then RemapPages(old(mapper.table), PagesIn(piece), a.Protect(flags).flags)
                   else old(mapper.table)
    {
      hide Carve, Refit, PagesIn, RemapPages, Agree, AttrsAt;
      ghost var u := UserGrants(inner, holes);
      PieceMapped(u, k, piece, mapper.table);
      PieceFree(u, k, piece);
      var g := CarveOut(k, piece);
      RefitIs(u, k, piece, g.attrs);
      ok := g.attrs.CanHaveFlags(flags);
      if ok {
        var changed := g.attrs.Protect(flags);
        RefitIs(u, k, piece, changed);
        RemapRange(piece, changed.flags, mapper);
        Insert(g.(attrs := changed));
      } else {
        Insert(g);
      }
    }

    method Mprotect(page: nat, count: nat, flags: MapFlags) returns (ok: bool)
      requires View().Valid()
      modifies this`inner, this`holes, mapper
      ensures (View(), ok) == AddressSpaces.Mprotect(old(View()), page, count, flags)
    {
      hide Refit, Conflicts, PagesIn, RemapPages, Agree, AttrsAt, MprotectLoop, UserGrants.Valid;
      var requested := Region(page * PAGE_SIZE, count * PAGE_SIZE);
      var todo := Conflicts(inner, requested);
      ghost var goal := MprotectLoop(View().grants, View().table, todo, requested, flags);
      var i := 0;
      assert todo[0..] == todo;
      while i < |todo|
        invariant 0 <= i <= |todo| && mmapMin == old(mmapMin)
        invariant Pending(View().grants, todo[i..], requested) && Agree(inner, mapper.table)
        invariant MprotectLoop(View().grants, mapper.table, todo[i..], requested, flags) == goal
      {
        ghost var u := View().grants;
        ghost var t := mapper.table;
        assert todo[i..][0] == todo[i] && todo[i..][1..] == todo[i + 1..];
        PieceExact(u, todo[i..], requested);
        MprotectUnfolds(u, t, todo[i..], requested, flags);
        var accepted := ProtectOne(todo[i], inner[todo[i]].region.Intersect(requested), flags);
        if !accepted {
          return false;
        }
        i := i + 1;
      }
      assert todo[i..] == [];
      MprotectEnds(View().grants, mapper.table, requested, flags);
      ok := true;
    }

    // One grant of munmap: split, unmap its pages, give owned frames back.
    method UnmapOne(k: nat, piece: Region, alloc: FrameAllocator) returns (desc: Option<FileRef>)
      requires CanCarve(UserGrants(inner, holes), k, piece) && Agree(inner, mapper.table)
      requires OwnedOnce(View(), alloc.free)
      modifies this`inner, this`holes, mapper, alloc
      ensures UserGrants(inner, holes) == Carve(old(UserGrants(inner, holes)), k, piece)
      ensures mapper.table == old(mapper.table) - PagesIn(piece)
      ensures desc == old(inner)[k].attrs.desc
      ensures alloc.free == old(alloc.free) + OwnedFrames(old(View()), piece)
    {
      hide Carve, Agree, AttrsAt, OwnedFrames, UserGrants.Valid;
      ghost var u := UserGrants(inner, holes);
      PieceMapped(u, k, piece, mapper.table);
      PieceOwned(View(), k, piece);
      var g := CarveOut(k, piece);
      UnmapRange(piece, g.attrs, mapper, alloc);
      desc := g.attrs.desc;
    }

    method Munmap(page: nat, count: nat, alloc: FrameAllocator) returns (notify: seq<(FileRef, Region)>)
      requires View().Valid() && OwnedOnce(View(), alloc.free)
      modifies this`inner, this`holes, mapper, alloc
      ensures (View(), notify) == AddressSpaces.Munmap(old(View()), page, count)
      ensures alloc.free == old(alloc.free) + OwnedFrames(old(View()), Region(page * PAGE_SIZE, count * PAGE_SIZE))
    {
      hide Carve, Conflicts, PagesIn, Agree, AttrsAt, MunmapLoop, UserGrants.Valid, OwnedFrames, OwnedOnce;
      var requested := Region(page * PAGE_SIZE, count * PAGE_SIZE);
      var todo := Conflicts(inner, requested);
      ghost var goal := MunmapLoop(View().grants, View().table, todo, requested);
      notify := [];
      var i := 0;
      assert todo[0..] == todo;
      while i < |todo|
        invariant 0 <= i <= |todo| && mmapMin == old(mmapMin)
        invariant Pending(View().grants, todo[i..], requested) && Agree(inner, mapper.table)
        invariant var rest := MunmapLoop(View().grants, mapper.table, todo[i..], requested);
                  goal == rest.(notify := notify + rest.notify)
        invariant OwnedOnce(View(), alloc.free)
        invariant alloc.free + OwnedFrames(View(), requested) == old(alloc.free) + OwnedFrames(old(View()), requested)
      {
        ghost var s := View();
        assert todo[i..][0] == todo[i] && todo[i..][1..] == todo[i + 1..];
        PieceExact(s.grants, todo[i..], requested);
        MunmapUnfolds(s.grants, s.table, todo[i..], requested);
        var piece := inner[todo[i]].region.Intersect(requested);
        ghost var free := alloc.free;
        var desc := UnmapOne(todo[i], piece.Round(), alloc);
        PieceGone(s, View(), todo[i], piece, requested, free);
        if desc.Some? {
          notify := notify + [(desc.value, piece)];
        }
        i := i + 1;
      }
      assert todo[i..] == [];
      MunmapEnds(View().grants, mapper.table, requested);
      assert notify + [] == notify;
      NothingOwned(old(View()), page, count);
    }

    // mmap with fresh zeroed memory. `frames` names, for the statement, the frames it mapped, and `room` is
    // how many pages the table can take. When it runs out of memory, pages already mapped stay in the table
    // without a grant: the space is consistent afterwards iff there was no frame or no room to begin with.
    method MmapZeroed(page: Option<nat>, count: nat, flags: MapFlags, alloc: FrameAllocator, room: nat)
      returns (r: Result<nat>, ghost frames: seq<nat>, ghost lost: set<nat>)
      requires View().Valid()
      modifies this`inner, this`holes, mapper, alloc
      ensures NoRepeats(frames) && Elements(frames) + lost <= old(alloc.free) && Elements(frames) !! lost && |lost| <= 1
      ensures alloc.free == old(alloc.free) - Elements(frames) - lost
      ensures var m := Mapping(frames, Attrs(PageFlags(true, flags.write, flags.exec, 0), true, true, None));
              r.Ok? ==>
                lost == {} && Mmap(old(View()), page, flags, m) == Ok((Region(r.value, count * PAGE_SIZE), View()))
      ensures r.Ok? ==> View().Valid() && MappedAs(View(), Region(r.value, count * PAGE_SIZE), flags, true, None)
      ensures r.Err? ==> UserGrants(inner, holes) == old(UserGrants(inner, holes))
      ensures count > 0 ==>
                match PickRegion(old(View()).grants, old(mmapMin), page, count * PAGE_SIZE, flags)
                case Err(error) => r == Err(error) && View() == old(View())
                case Ok(region) =>
                  && |frames| == Least(count, room, |old(alloc.free)|)
                  && (r.Ok? <==> count <= room && count <= |old(alloc.free)|)
                  && (r.Err? ==>
                        && r.error == ENOMEM
                        && (View().Valid() <==> room == 0 || old(alloc.free) == {})
                        && mapper.table == MapPages(old(mapper.table), region.start,
                             Mapping(frames, Attrs(PageFlags(true, flags.write, flags.exec, 0), true, true, None))))
      ensures count == 0 ==> r == Err(EINVAL) && View() == old(View())
    {
      hide PickRegion, MapPages, Agree, AttrsAt, Grants.Insert, MappedAs;
      frames, lost := [], {};
      if count == 0 {
        return Err(EINVAL), frames, lost;
      }
      ghost var s := View();
      var found := PickRegion(UserGrants(inner, holes), mmapMin, page, count * PAGE_SIZE, flags);
      if found.Err? {
        return Err(found.error), frames, lost;
      }
      var first := found.value.start / PAGE_SIZE;
      assert first * PAGE_SIZE == found.value.start;
      var g;
      g, frames, lost := Zeroed(first, count, PageFlagsOf(flags), mapper, alloc, room);
      if g.Err? {
        PartlyMapped(s, found.value, Mapping(frames, Attrs(PageFlagsOf(flags), true, true, None)));
        return Err(g.error), frames, lost;
      }
      MmapProtects(s, page, flags, Mapping(frames, g.value.attrs));
      Insert(g.value);
      r := Ok(found.value.start);
    }

    // mmap of pages borrowed from another table, which fails when the region cannot be had or the table has
    // no room. A failure changes nothing.
    method MmapBorrow(
      page: Option<nat>, count: nat, flags: MapFlags, desc: Option<FileRef>, src: nat, srcMapper: PageMapper, room: nat
    ) returns (r: Result<nat>)
      requires View().Valid() && srcMapper != mapper
      requires forall x :: 0 <= x < count ==> PageAt(src * PAGE_SIZE, x) in srcMapper.table
      modifies this`inner, this`holes, mapper
      ensures var m := Mapping(FramesAt(srcMapper.table, src * PAGE_SIZE, count),
                Attrs(PageFlags(true, flags.write, flags.exec, 0), false, false, desc));
              r.Ok? ==> Mmap(old(View()), page, flags, m) == Ok((Region(r.value, count * PAGE_SIZE), View()))
      ensures r.Ok? ==> View().Valid() && MappedAs(View(), Region(r.value, count * PAGE_SIZE), flags, false, desc)
      ensures r.Err? ==> View() == old(View())
      ensures count == 0 ==> r == Err(EINVAL)
      ensures count > 0 ==>
                match PickRegion(old(View()).grants, old(mmapMin), page, count * PAGE_SIZE, flags)
                case Err(error) => r == Err(error)
                case Ok(_) => if count <= room then r.Ok? else r == Err(ENOMEM)
    {
      hide PickRegion, MapPages, AttrsAt, Grants.Insert, FramesAt, MappedAs;
      ghost var s := View();
      if count == 0 {
        return Err(EINVAL);
      }
      var found := PickRegion(UserGrants(inner, holes), mmapMin, page, count * PAGE_SIZE, flags);
      if found.Err? {
        return Err(found.error);
      }
      var first := found.value.start / PAGE_SIZE;
      assert first * PAGE_SIZE == found.value.start;
      FreePagesUnmapped(View(), found.value, count);
      var g := Borrow(src, first, count, Attrs(PageFlagsOf(flags), false, false, desc), srcMapper, mapper, room);
      if g.Err? {
        return Err(g.error);
      }
      MmapProtects(s, page, flags, Mapping(FramesAt(srcMapper.table, src * PAGE_SIZE, count), g.value.attrs));
      Insert(g.value);
      r := Ok(found.value.start);
    }

    // `UserScheme::funmap` on the table of this space: the address to send to the scheme.
    method Funmap(address: nat, size: nat) returns (sent: Result<nat>)
      modifies this`funmap
      ensures (sent, funmap) == FM.FunmapCall(old(funmap), address, size)
    {
      var entry := Floor(funmap.Keys, address);
      if entry.None? {
        return Err(EINVAL);
      }
      var grant := FM.EntryRegion(funmap, entry.value);
      var requested := Region(address, size);
      if requested.End() > grant.End() {
        return Err(EINVAL);
      }
      var base := funmap[entry.value].addr;
      var user := Region(base, grant.size);
      funmap := funmap - {grant.start};
      var before := grant.Before(requested);
      if before.Some? {
        funmap := funmap[before.value.start := FM.FunEntry(before.value.size, base)];
      }
      var after := grant.After(requested);
      if after.Some? {
        funmap := funmap[after.value.start := FM.FunEntry(after.value.size, grant.Rebase(user, after.value.start))];
      }
      sent := Ok(grant.Rebase(user, address));
    }
  }

  // A new space asked for two pages, with frames for both and room in the table for one: it fails, and one
  // page is left without a grant.
  method HalfMapped() returns (s: AddrSpace, r: Result<nat>)
    ensures fresh(s) && r == Err(ENOMEM) && !s.View().Valid()
  {
    s := new AddrSpace();
    var alloc := new FrameAllocator({5, 6});
    PageOneFits(2);
    ghost var frames, lost;
    r, frames, lost := s.MmapZeroed(Some(1), 2, MapFlags(true, false, false, false), alloc, 1);
  }

  lemma PageOneFits(count: nat)
    requires 0 < count < 1000
    ensures NEW_SPACE.Valid()
    ensures var flags := MapFlags(true, false, false, false);
            PickRegion(NEW_SPACE.grants, PAGE_SIZE, Some(1), count * PAGE_SIZE, flags).Ok?
  {
    hide FindFree;
    NewSpaceValid();
    FindFreeAtOutcome(NEW_SPACE.grants, PAGE_SIZE, PAGE_SIZE, count * PAGE_SIZE, MapFlags(true, false, false, false));
  }

  // Pages mapped where there is no grant break the agreement, unless there are none.
  lemma PartlyMapped(s: Space, region: Region, m: Mapping)
    requires s.Valid() && region.IsPageRange() && IsFree(s.grants.inner, region)
    requires |m.frames| * PAGE_SIZE <= region.size
    ensures var t := s.(table := MapPages(s.table, region.start, m));
            (t.Valid() <==> m.frames == []) && (m.frames == [] ==> t == s)
  {
    hide AttrsAt, UserGrants.Valid, MapPages;
    if m.frames == [] {
      MapNone(s.table, region.start, m.attrs);
    } else {
      assert region.Has(region.start) && PageAt(region.start, 0) in FirstPages(region.start, |m.frames|);
      MapPagesAt(s.table, region.start, m, region.start);
      UncoveredAttrs(s.grants.inner, region.start);
    }
  }

  lemma FreePagesUnmapped(s: Space, region: Region, count: nat)
    requires s.Valid() && region.IsPageRange() && region.size == count * PAGE_SIZE && IsFree(s.grants.inner, region)
    ensures forall x :: 0 <= x < count ==> PageAt(region.start, x) !in s.table
  {
  }

  lemma MprotectUnfolds(u: UserGrants, table: Table, todo: seq<nat>, requested: Region, flags: MapFlags)
    requires Pending(u, todo, requested) && todo != [] && Agree(u.inner, table)
    requires CanCarve(u, todo[0], Piece(u, todo[0], requested))
    ensures var k := todo[0]; var piece := Piece(u, k, requested); var a := u.inner[k].attrs;
            if a.CanHaveFlags(flags) then
              var n := Refit(u, k, piece, a.Protect(flags));
                var t := RemapPages(table, PagesIn(piece), a.Protect(flags).flags);
              && Pending(n, todo[1..], requested) && Agree(n.inner, t)
              && MprotectLoop(u, table, todo, requested, flags) == MprotectLoop(n, t, todo[1..], requested, flags)
            else
              MprotectLoop(u, table, todo, requested, flags) == Protected(Refit(u, k, piece, a), table, false)
  {
    hide Refit, Agree, RemapPages, AttrsAt, UserGrants.Valid;
    var k := todo[0];
    var piece := Piece(u, k, requested);
    var a := u.inner[k].attrs;
    if a.CanHaveFlags(flags) {
      RefitPending(u, todo, requested, a.Protect(flags));
      RefitAgrees(u, k, piece, table, a.Protect(flags));
    }
  }

  lemma MprotectEnds(u: UserGrants, table: Table, requested: Region, flags: MapFlags)
    requires Pending(u, [], requested)
    ensures MprotectLoop(u, table, [], requested, flags) == Protected(u, table, true)
  {
  }

  lemma MunmapUnfolds(u: UserGrants, table: Table, todo: seq<nat>, requested: Region)
    requires Pending(u, todo, requested) && todo != [] && Agree(u.inner, table)
    requires CanCarve(u, todo[0], Piece(u, todo[0], requested))
    ensures var k := todo[0]; var piece := Piece(u, k, requested); var desc := u.inner[k].attrs.desc;
            var n := Carve(u, k, piece); var t := table - PagesIn(piece);
            && Pending(n, todo[1..], requested) && Agree(n.inner, t)
            && var rest := MunmapLoop(n, t, todo[1..], requested);
               var note := if desc.None? then [] else [(desc.value, u.inner[k].region.Intersect(requested))];
               MunmapLoop(u, table, todo, requested) == rest.(notify := note + rest.notify)
  {
    hide Carve, Agree, AttrsAt, UserGrants.Valid;
    var piece := Piece(u, todo[0], requested);
    CarvePending(u, todo, requested);
    AgreeAfterUnmap(u.inner, Carve(u, todo[0], piece).inner, table, piece);
  }

  lemma MunmapEnds(u: UserGrants, table: Table, requested: Region)
    requires Pending(u, [], requested)
    ensures MunmapLoop(u, table, [], requested) == Unmapped(u, table, [])
  {
  }

  // The frames owned in a piece of one grant are those of its pages, or none.
  lemma PieceOwned(s: Space, k: nat, piece: Region)
    requires CanCarve(s.grants, k, piece) && Agree(s.grants.inner, s.table)
    requires PagesIn(piece) <= s.table.Keys
    ensures s.grants.inner[k].attrs.OwnsFrames() ==> forall p :: p in PagesIn(piece) ==> Owns(s, p)
    ensures OwnedFrames(s, piece) == if s.grants.inner[k].attrs.OwnsFrames()
              then (set p | p in PagesIn(piece) :: s.table[p].frame) else {}
  {
    hide UserGrants.Valid, PagesIn;
    forall p: nat
      ensures Owns(s, p) && piece.Has(p) <==> p in PagesIn(piece) && s.grants.inner[k].attrs.OwnsFrames()
    {
      PieceOwnedPage(s, k, piece, p);
    }
    hide Owns, Agree;
  }

  lemma PieceOwnedPage(s: Space, k: nat, piece: Region, p: nat)
    requires CanCarve(s.grants, k, piece) && Agree(s.grants.inner, s.table)
    ensures Owns(s, p) && piece.Has(p) <==> p in PagesIn(piece) && s.grants.inner[k].attrs.OwnsFrames()
  {
    hide AttrsAt, UserGrants.Valid;
    GrantAttrs(s.grants, k);
  }

  lemma PieceGone(s: Space, t: Space, k: nat, piece: Region, requested: Region, free: set<nat>)
    requires CanCarve(s.grants, k, piece) && Agree(s.grants.inner, s.table) && OwnedOnce(s, free)
    requires forall b :: piece.Has(b) ==> requested.Has(b)
    requires t.grants == Carve(s.grants, k, piece) && t.table == s.table - PagesIn(piece)
    ensures OwnedOnce(t, free + OwnedFrames(s, piece))
    ensures OwnedFrames(t, requested) + OwnedFrames(s, piece) == OwnedFrames(s, requested)
  {
    hide AttrsAt, Carve, UserGrants.Valid;
    forall p: nat
      ensures Owns(t, p) <==> Owns(s, p) && !piece.Has(p)
      ensures Owns(t, p) ==> p in s.table && t.table[p] == s.table[p]
    {}
    hide Owns;
  }

  lemma NothingOwned(s: Space, page: nat, count: nat)
    requires s.Valid()
    ensures OwnedFrames(AddressSpaces.Munmap(s, page, count).0, Region(page * PAGE_SIZE, count * PAGE_SIZE)) == {}
  {
    hide AttrsAt, AddressSpaces.Munmap;
    MunmapExact(s, page, count);
  }

  lemma PieceMapped(u: UserGrants, k: nat, piece: Region, table: Table)
    requires CanCarve(u, k, piece) && Agree(u.inner, table)
    ensures PagesIn(piece) <= table.Keys
    ensures forall p :: p in PagesIn(piece) ==> AttrsAt(u.inner, p) == Some(u.inner[k].attrs)
  {
    hide AttrsAt;
    GrantAttrs(u, k);
  }

  lemma PieceFree(u: UserGrants, k: nat, piece: Region)
    requires CanCarve(u, k, piece)
    ensures IsFree(Carve(u, k, piece).inner, piece)
  {
  }

  lemma RefitIs(u: UserGrants, k: nat, piece: Region, a: Attrs)
    requires CanCarve(u, k, piece) && IsFree(Carve(u, k, piece).inner, piece)
    ensures Refit(u, k, piece, a) == Grants.Insert(Carve(u, k, piece), Grant(piece, a))
  {
  }

  lemma RefitAgrees(u: UserGrants, k: nat, piece: Region, table: Table, a: Attrs)
    requires CanCarve(u, k, piece) && Agree(u.inner, table)
    ensures Agree(Refit(u, k, piece, a).inner, RemapPages(table, PagesIn(piece), a.flags))
  {
    hide AttrsAt, Refit;
    GrantAttrs(u, k);
    AgreeAfterRemap(u.inner, Refit(u, k, piece, a).inner, table, piece, a);
  }
}
