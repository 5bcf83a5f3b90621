// Physical frames across any number of address spaces: who owns which frame, and that every frame
// taken from the allocator is given back at most once. Models `Grant::{zeroed, borrow, transfer,
// unmap}`, `AddrSpace::try_clone` and the frame allocator.
module Frames {
  import opened Regions
  import opened Ordered
  import opened Grants
  import opened AddressSpaces

  // `loose` frames have left the allocator or a page table and are in the hands of a running
  // operation; the set is empty between operations. The two counters count frames handed out and
  // frames given back.
  datatype System = System(spaces: map<nat, Space>, free: set<nat>, loose: set<nat>, handedOut: nat, givenBack: nat)

  // The page is mapped by a grant that owns its frame and got it from the allocator.
  ghost predicate Owns(s: Space, p: nat) {
    p in s.table && AttrsAt(s.grants.inner, p).Some? && AttrsAt(s.grants.inner, p).value.OwnsFrames()
  }

  ghost function OwnedFrames(s: Space, r: Region): set<nat> {
    set p | p in s.table && Owns(s, p) && r.Has(p) :: s.table[p].frame
  }

  ghost function Held(sys: System): set<nat> {
    set i, p | i in sys.spaces && p in sys.spaces[i].table && Owns(sys.spaces[i], p) :: sys.spaces[i].table[p].frame
  }

  // No frame is owned through two pages, in one space or in two.
  ghost predicate OnePageEach(spaces: map<nat, Space>) {
    forall i, j, p, q ::
      && i in spaces && j in spaces && Owns(spaces[i], p) && Owns(spaces[j], q)
      && spaces[i].table[p].frame == spaces[j].table[q].frame
      ==> i == j && p == q
  }

  ghost predicate Accounted(sys: System) {
    && (forall i :: i in sys.spaces ==> sys.spaces[i].Valid())
    && OnePageEach(sys.spaces)
    && Held(sys) !! sys.free && Held(sys) !! sys.loose && sys.free !! sys.loose
    && sys.handedOut == sys.givenBack + |Held(sys)| + |sys.loose|
  }

  /// The four moves of a frame

  function Allocate(sys: System, frames: set<nat>): System
    requires frames <= sys.free
  {
    sys.(free := sys.free - frames, loose := sys.loose + frames, handedOut := sys.handedOut + |frames|)
  }

  lemma AllocateAccounted(sys: System, frames: set<nat>)
    requires Accounted(sys) && frames <= sys.free
    ensures Accounted(Allocate(sys, frames)) && Held(Allocate(sys, frames)) == Held(sys)
  {
    hide Held, OnePageEach, Space.Valid;
    SameSpacesHeld(Allocate(sys, frames), sys);
    assert |sys.loose + frames| == |sys.loose| + |frames|;
  }

  // Giving a frame back needs it in hand, so outside the free set.
  function Deallocate(sys: System, frames: set<nat>): System
    requires frames <= sys.loose
  {
    sys.(free := sys.free + frames, loose := sys.loose - frames, givenBack := sys.givenBack + |frames|)
  }

  lemma DeallocateAccounted(sys: System, frames: set<nat>)
    requires Accounted(sys) && frames <= sys.loose
    ensures Accounted(Deallocate(sys, frames)) && frames !! sys.free
  {
    hide Held, OnePageEach, Space.Valid;
    SameSpacesHeld(Deallocate(sys, frames), sys);
    assert |sys.loose - frames| == |sys.loose| - |frames|;
  }

  // `t` is `s` without the pages of `r`.
  ghost predicate Without(s: Space, t: Space, r: Region) {
    && t.Valid()
    && (forall b :: AttrsAt(t.grants.inner, b) == if r.Has(b) then None else AttrsAt(s.grants.inner, b))
    && (forall p :: p in t.table <==> p in s.table && !r.Has(p))
    && (forall p :: p in t.table ==> t.table[p] == s.table[p])
  }

  ghost function Detach(sys: System, i: nat, t: Space, r: Region): System
    requires i in sys.spaces
  {
    sys.(spaces := sys.spaces[i := t], loose := sys.loose + OwnedFrames(sys.spaces[i], r))
  }

  lemma DetachedOwner(sys: System, i: nat, t: Space, r: Region, j: nat, p: nat)
    requires i in sys.spaces && Without(sys.spaces[i], t, r) && j in sys.spaces
    ensures var n := sys.spaces[i := t];
            && (Owns(n[j], p) <==> Owns(sys.spaces[j], p) && (j == i ==> !r.Has(p)))
            && (Owns(n[j], p) ==> n[j].table[p] == sys.spaces[j].table[p])
  {
  }

  lemma DetachOnePage(sys: System, i: nat, t: Space, r: Region)
    requires OnePageEach(sys.spaces) && i in sys.spaces && Without(sys.spaces[i], t, r)
    ensures OnePageEach(sys.spaces[i := t])
  {
    hide Without;
    var n := sys.spaces[i := t];
    forall j, k, p, q | j in n && k in n && Owns(n[j], p) && Owns(n[k], q) && n[j].table[p].frame == n[k].table[q].frame
      ensures j == k && p == q
    {
      DetachedOwner(sys, i, t, r, j, p);
      DetachedOwner(sys, i, t, r, k, q);
    }
  }

  lemma DetachHeldFrame(sys: System, i: nat, t: Space, r: Region, f: nat)
    requires OnePageEach(sys.spaces) && i in sys.spaces && Without(sys.spaces[i], t, r)
    ensures f in Held(Detach(sys, i, t, r)) <==> f in Held(sys) && f !in OwnedFrames(sys.spaces[i], r)
  {
    hide Without;
    var n := Detach(sys, i, t, r);
    if f in Held(n) {
      var j, p :| j in n.spaces && p in n.spaces[j].table && Owns(n.spaces[j], p) && n.spaces[j].table[p].frame == f;
      DetachedOwner(sys, i, t, r, j, p);
      assert f in Held(sys);
      assert f !in OwnedFrames(sys.spaces[i], r);
    }
    if f in Held(sys) && f !in OwnedFrames(sys.spaces[i], r) {
      var j, p :| j in sys.spaces && p in sys.spaces[j].table && Owns(sys.spaces[j], p) &&
        sys.spaces[j].table[p].frame == f;
      DetachedOwner(sys, i, t, r, j, p);
      assert j in n.spaces && p in n.spaces[j].table && Owns(n.spaces[j], p);
    }
  }

  lemma OwnedAreHeld(sys: System, i: nat, r: Region)
    requires i in sys.spaces
    ensures OwnedFrames(sys.spaces[i], r) <= Held(sys)
  {
  }

  lemma DetachHeld(sys: System, i: nat, t: Space, r: Region)
    requires OnePageEach(sys.spaces) && i in sys.spaces && Without(sys.spaces[i], t, r)
    ensures Held(Detach(sys, i, t, r)) == Held(sys) - OwnedFrames(sys.spaces[i], r)
  {
    hide Owns, OnePageEach, Held, OwnedFrames, Without, Detach;
    forall f: nat
      ensures f in Held(Detach(sys, i, t, r)) <==> f in Held(sys) && f !in OwnedFrames(sys.spaces[i], r)
    {
      DetachHeldFrame(sys, i, t, r, f);
    }
  }

  lemma DetachAccounted(sys: System, i: nat, t: Space, r: Region)
    requires Accounted(sys) && i in sys.spaces && Without(sys.spaces[i], t, r)
    ensures Accounted(Detach(sys, i, t, r))
  {
    hide Owns, OnePageEach, Held, OwnedFrames, Space.Valid, AttrsAt;
    OwnedAreHeld(sys, i, r);
    DetachOnePage(sys, i, t, r);
    DetachHeld(sys, i, t, r);
    SplitSizes(Held(sys), sys.loose, OwnedFrames(sys.spaces[i], r));
  }

  lemma SplitSizes(held: set<nat>, loose: set<nat>, gone: set<nat>)
    requires gone <= held && held !! loose
    ensures |held - gone| + |loose + gone| == |held| + |loose|
  {
  }

  ghost predicate NoRepeats(frames: seq<nat>) {
    forall i, j :: 0 <= i < j < |frames| ==> frames[i] != frames[j]
  }

  function Elements(frames: seq<nat>): set<nat> {
    set f | f in frames
  }

  // The frames that a new grant takes over from the operation.
  function Claimed(m: Mapping): set<nat> {
    if m.attrs.OwnsFrames() then Elements(m.frames) else {}
  }

  ghost predicate CanAttach(sys: System, i: nat, region: Region, m: Mapping) {
    && i in sys.spaces && CanPlace(sys.spaces[i], region, m)
    && Claimed(m) <= sys.loose && (m.attrs.OwnsFrames() ==> NoRepeats(m.frames))
  }

  function Attach(sys: System, i: nat, region: Region, m: Mapping): System
    requires CanAttach(sys, i, region, m)
  {
    sys.(spaces := sys.spaces[i := Place(sys.spaces[i], region, m)], loose := sys.loose - Claimed(m))
  }

  // What a page of the grown space is: an old page, or the page of `region` with its own frame.
  lemma PlacedPage(s: Space, region: Region, m: Mapping, p: nat)
    requires CanPlace(s, region, m)
    ensures var t := Place(s, region, m);
            && (!region.Has(p) ==>
                  && (Owns(t, p) <==> Owns(s, p)) && (p in t.table <==> p in s.table)
                  && (p in s.table ==> t.table[p] == s.table[p]))
            && (region.Has(p) ==> !Owns(s, p))
            && (region.Has(p) && Aligned(p) ==>
                  && p in t.table && (Owns(t, p) <==> m.attrs.OwnsFrames())
                  && t.table[p].frame == m.frames[(p - region.start) / PAGE_SIZE])
            && (region.Has(p) && Owns(t, p) ==> Aligned(p))
  {
    PlaceExact(s, region, m);
    hide AttrsAt;
  }

  lemma AttachOnePage(sys: System, i: nat, region: Region, m: Mapping)
    requires CanAttach(sys, i, region, m) && OnePageEach(sys.spaces) && Held(sys) !! sys.loose
    ensures OnePageEach(Attach(sys, i, region, m).spaces)
  {
    hide CanPlace, Place;
    var n := Attach(sys, i, region, m).spaces;
    forall j, k, p, q | && j in n && k in n && Owns(n[j], p) && Owns(n[k], q) &&
      n[j].table[p].frame == n[k].table[q].frame
      ensures j == k && p == q
    {
      AttachedOwner(sys, i, region, m, j, p);
      AttachedOwner(sys, i, region, m, k, q);
    }
  }

  // An owning page after the attachment is an old one, or one of the new pages.
  lemma AttachedOwner(sys: System, i: nat, region: Region, m: Mapping, j: nat, p: nat)
    requires CanAttach(sys, i, region, m) && Held(sys) !! sys.loose
    requires var n := Attach(sys, i, region, m).spaces; j in n && Owns(n[j], p)
    ensures var f := Attach(sys, i, region, m).spaces[j].table[p].frame;
            if j == i && region.Has(p) then
              m.attrs.OwnsFrames() && Aligned(p) && (p - region.start) / PAGE_SIZE < |m.frames| &&
                f == m.frames[(p - region.start) / PAGE_SIZE] && f in sys.loose
            else
              j in sys.spaces && Owns(sys.spaces[j], p) && f == sys.spaces[j].table[p].frame && f !in sys.loose
  {
    PlacedPage(sys.spaces[i], region, m, p);
    hide Place, Owns;
    if !(j == i && region.Has(p)) {
      assert sys.spaces[j].table[p].frame in Held(sys);
    }
  }

  lemma AttachHeldFrame(sys: System, i: nat, region: Region, m: Mapping, f: nat)
    requires CanAttach(sys, i, region, m) && Held(sys) !! sys.loose
    ensures f in Held(Attach(sys, i, region, m)) <==> f in Held(sys) || f in Claimed(m)
  {
    hide CanPlace, Place;
    var n := Attach(sys, i, region, m);
    if f in Held(n) {
      var j, p :| j in n.spaces && p in n.spaces[j].table && Owns(n.spaces[j], p) && n.spaces[j].table[p].frame == f;
      AttachedOwner(sys, i, region, m, j, p);
    }
    if f in Held(sys) {
      var j, p :| j in sys.spaces && p in sys.spaces[j].table && Owns(sys.spaces[j], p) &&
        sys.spaces[j].table[p].frame == f;
      PlacedPage(sys.spaces[i], region, m, p);
      assert j in n.spaces && p in n.spaces[j].table && Owns(n.spaces[j], p);
    }
    if f in Claimed(m) {
      var x :| 0 <= x < |m.frames| && m.frames[x] == f;
      var p := PageAt(region.start, x);
      PlacedAt(sys.spaces[i], region, m, x);
      assert i in n.spaces && p in n.spaces[i].table && Owns(n.spaces[i], p);
    }
  }

  lemma PlacedAt(s: Space, region: Region, m: Mapping, x: nat)
    requires CanPlace(s, region, m) && x < |m.frames|
    ensures var t := Place(s, region, m); var p := PageAt(region.start, x);
            p in t.table && (Owns(t, p) <==> m.attrs.OwnsFrames()) && t.table[p].frame == m.frames[x]
  {
    hide CanPlace, Place, Owns;
    var p := PageAt(region.start, x);
    assert region.IsPageRange() && region.size == |m.frames| * PAGE_SIZE by { PlaceRegion(s, region, m); }
    PageIndex(region, |m.frames|, x);
    PlacedPage(s, region, m, p);
  }

  lemma PlaceRegion(s: Space, region: Region, m: Mapping)
    requires CanPlace(s, region, m)
    ensures region.IsPageRange() && region.size == |m.frames| * PAGE_SIZE
  {
  }

  lemma PageIndex(region: Region, n: nat, x: nat)
    requires x < n && region.size == n * PAGE_SIZE && Aligned(region.start)
    ensures var p := PageAt(region.start, x); region.Has(p) && Aligned(p) && (p - region.start) / PAGE_SIZE == x
  {
  }

  lemma AttachAccounted(sys: System, i: nat, region: Region, m: Mapping)
    requires CanAttach(sys, i, region, m) && Accounted(sys)
    ensures Accounted(Attach(sys, i, region, m))
  {
    hide Owns, OnePageEach, Held, CanPlace, Place, Space.Valid, Claimed;
    var n := Attach(sys, i, region, m);
    AttachOnePage(sys, i, region, m);
    forall f: nat
      ensures f in Held(n) <==> f in Held(sys) || f in Claimed(m)
    {
      AttachHeldFrame(sys, i, region, m, f);
    }
    assert Held(n) == Held(sys) + Claimed(m);
    SplitSizes(sys.loose, Held(sys), Claimed(m));
    PlaceExact(sys.spaces[i], region, m);
  }

  /// Operations

  // The frames behind `n` pages from `base` on.
  function FramesAt(table: Table, base: nat, n: nat): (r: seq<nat>)
    requires forall x :: 0 <= x < n ==> PageAt(base, x) in table
    ensures |r| == n && forall x :: 0 <= x < n ==> r[x] == table[PageAt(base, x)].frame
  {
    if n == 0 then [] else FramesAt(table, base, n - 1) + [table[PageAt(base, n - 1)].frame]
  }

  ghost predicate HasSpace(sys: System, i: nat) {
    i in sys.spaces && sys.spaces[i].Valid()
  }

  // Anonymous memory: one fresh frame per page.
  function MapZeroed(sys: System, i: nat, page: Option<nat>, flags: MapFlags, frames: seq<nat>): (r: Result<System>)
    requires HasSpace(sys, i) && NoRepeats(frames) && Elements(frames) <= sys.free
  {
    var m := Mapping(frames, Attrs(PageFlagsOf(flags), true, true, None));
    var r := Mmap(sys.spaces[i], page, flags, m);
    if r.Err? then Err(r.error) else Ok(Attach(Allocate(sys, Elements(frames)), i, r.value.0, m))
  }

  lemma MapZeroedAccounted(sys: System, i: nat, page: Option<nat>, flags: MapFlags, frames: seq<nat>)
    requires Accounted(sys) && i in sys.spaces && NoRepeats(frames) && Elements(frames) <= sys.free && sys.loose == {}
    ensures var r := MapZeroed(sys, i, page, flags, frames);
            r.Ok? ==>
              && Accounted(r.value) && r.value.loose == {}
              && Held(r.value) == Held(sys) + Elements(frames) && Elements(frames) !! Held(sys)
              && r.value.free == sys.free - Elements(frames)
  {
    hide Owns, OnePageEach, Held, CanPlace, Place, Space.Valid, Mmap;
    var m := Mapping(frames, Attrs(PageFlagsOf(flags), true, true, None));
    var r := Mmap(sys.spaces[i], page, flags, m);
    if r.Ok? {
      AllocateAccounted(sys, Elements(frames));
      AttachAccounted(Allocate(sys, Elements(frames)), i, r.value.0, m);
      AttachHeld(Allocate(sys, Elements(frames)), i, r.value.0, m);
    }
  }

  // The new memory is in the space and nowhere else: what mmap does with the frames in the order given, the
  // protection asked for, and an owner.
  lemma MapZeroedExact(sys: System, i: nat, page: Option<nat>, flags: MapFlags, frames: seq<nat>)
    requires HasSpace(sys, i) && NoRepeats(frames) && Elements(frames) <= sys.free
    ensures var m := Mapping(frames, Attrs(PageFlags(true, flags.write, flags.exec, 0), true, true, None));
            var at := Mmap(sys.spaces[i], page, flags, m);
            var r := MapZeroed(sys, i, page, flags, frames);
            if at.Err? then r == Err(at.error) else r.Ok? && r.value.spaces == sys.spaces[i := at.value.1]
  {
    hide Mmap, Place, CanPlace, Space.Valid, NoRepeats, Elements;
  }

  // Physical and borrowed memory: the grant owns nothing, whatever frames it maps.
  function MapShared(sys: System, i: nat, page: Option<nat>, flags: MapFlags, m: Mapping): (r: Result<System>)
    requires HasSpace(sys, i) && !m.attrs.OwnsFrames()
  {
    var r := Mmap(sys.spaces[i], page, flags, m);
    if r.Err? then Err(r.error) else Ok(Attach(sys, i, r.value.0, m))
  }

  lemma MapSharedAccounted(sys: System, i: nat, page: Option<nat>, flags: MapFlags, m: Mapping)
    requires Accounted(sys) && i in sys.spaces && !m.attrs.OwnsFrames()
    ensures var r := MapShared(sys, i, page, flags, m);
            r.Ok? ==>
              && Accounted(r.value) && r.value.loose == sys.loose
              && Held(r.value) == Held(sys) && r.value.free == sys.free
  {
    hide Owns, OnePageEach, Held, CanPlace, Place, Space.Valid, Mmap;
    var r := Mmap(sys.spaces[i], page, flags, m);
    if r.Ok? {
      AttachAccounted(sys, i, r.value.0, m);
      AttachHeld(sys, i, r.value.0, m);
    }
  }

  lemma MapSharedExact(sys: System, i: nat, page: Option<nat>, flags: MapFlags, m: Mapping)
    requires HasSpace(sys, i) && !m.attrs.OwnsFrames()
    ensures var at := Mmap(sys.spaces[i], page, flags, m);
            var r := MapShared(sys, i, page, flags, m);
            if at.Err? then r == Err(at.error) else r.Ok? && r.value.spaces == sys.spaces[i := at.value.1]
  {
    hide Mmap, Place, CanPlace, Space.Valid;
  }

  lemma AttachHeld(sys: System, i: nat, region: Region, m: Mapping)
    requires CanAttach(sys, i, region, m) && Held(sys) !! sys.loose
    ensures Held(Attach(sys, i, region, m)) == Held(sys) + Claimed(m)
  {
    hide Held, Claimed, Attach;
    forall f: nat
      ensures f in Held(Attach(sys, i, region, m)) <==> f in Held(sys) || f in Claimed(m)
    {
      AttachHeldFrame(sys, i, region, m, f);
    }
  }

  ghost function UnmapPages(sys: System, i: nat, first: nat, count: nat): (r: System)
    requires HasSpace(sys, i)
  {
    var requested := Region(first * PAGE_SIZE, count * PAGE_SIZE);
    var detached := Detach(sys, i, Munmap(sys.spaces[i], first, count).0, requested);
    Deallocate(detached, OwnedFrames(sys.spaces[i], requested))
  }

  // munmap gives back the frames of exactly the owned pages it removes, none of them free before
  // and none of them owned after.
  lemma UnmapPagesExact(sys: System, i: nat, first: nat, count: nat)
    requires Accounted(sys) && i in sys.spaces && sys.loose == {}
    ensures var r := UnmapPages(sys, i, first, count);
            var gone := OwnedFrames(sys.spaces[i], Region(first * PAGE_SIZE, count * PAGE_SIZE));
            && Accounted(r) && r.loose == {}
            && gone !! sys.free && r.free == sys.free + gone && Held(r) == Held(sys) - gone
            && r.givenBack == sys.givenBack + |gone| && r.handedOut == sys.handedOut
            && r.spaces == sys.spaces[i := Munmap(sys.spaces[i], first, count).0]
  {
    hide Owns, OnePageEach, Held, OwnedFrames, Munmap, AttrsAt, Space.Valid;
    var requested := Region(first * PAGE_SIZE, count * PAGE_SIZE);
    var t := Munmap(sys.spaces[i], first, count).0;
    MunmapExact(sys.spaces[i], first, count);
    DetachAccounted(sys, i, t, requested);
    DetachHeld(sys, i, t, requested);
    OwnedAreHeld(sys, i, requested);
    var gone := OwnedFrames(sys.spaces[i], requested);
    DeallocateAccounted(Detach(sys, i, t, requested), gone);
    SameSpacesHeld(Deallocate(Detach(sys, i, t, requested), gone), Detach(sys, i, t, requested));
  }

  lemma SameSpacesHeld(a: System, b: System)
    requires a.spaces == b.spaces
    ensures Held(a) == Held(b)
  {
  }

  ghost predicate Shows(sys: System, j: nat, p: nat, f: nat) {
    j in sys.spaces && p in sys.spaces[j].table && sys.spaces[j].table[p].frame == f
  }

  // No page of any space shows a free frame.
  ghost predicate NoneFreeMapped(sys: System) {
    forall j: nat, p: nat, f: nat :: Shows(sys, j, p, f) ==> f !in sys.free
  }

  // A page outside the request, of any space, that shows a frame it does not own.
  ghost predicate SharedElsewhere(sys: System, i: nat, requested: Region, j: nat, p: nat, f: nat) {
    Shows(sys, j, p, f) && !Owns(sys.spaces[j], p) && !(j == i && requested.Has(p))
  }

  // munmap frees frames without asking who else has them mapped: it leaves no free frame mapped iff no
  // frame it frees is shown by a shared page elsewhere.
  lemma UnmapLeavesNoneFreeIff(sys: System, i: nat, first: nat, count: nat)
    requires Accounted(sys) && i in sys.spaces && sys.loose == {} && NoneFreeMapped(sys)
    ensures var requested := Region(first * PAGE_SIZE, count * PAGE_SIZE);
            NoneFreeMapped(UnmapPages(sys, i, first, count)) <==>
            forall j: nat, p: nat, f: nat :: SharedElsewhere(sys, i, requested, j, p, f) ==>
              f !in OwnedFrames(sys.spaces[i], requested)
  {
    hide Owns, Held, Munmap, AttrsAt, Space.Valid, UnmapPages, OwnedFrames, Shows, OnePageEach;
    var requested := Region(first * PAGE_SIZE, count * PAGE_SIZE);
    UnmapPagesExact(sys, i, first, count);
    forall j: nat, p: nat, f: nat
      ensures Shows(UnmapPages(sys, i, first, count), j, p, f) <==> Shows(sys, j, p, f) && !(j == i && requested.Has(p))
      ensures Shows(sys, j, p, f) && !(j == i && requested.Has(p)) && f in OwnedFrames(sys.spaces[i], requested)
              ==> SharedElsewhere(sys, i, requested, j, p, f)
    {
      UnmappedShows(sys, i, first, count, j, p, f);
      OwnedOnlyThere(sys, i, requested, j, p, f);
    }
  }

  lemma UnmappedShows(sys: System, i: nat, first: nat, count: nat, j: nat, p: nat, f: nat)
    requires HasSpace(sys, i)
    ensures Shows(UnmapPages(sys, i, first, count), j, p, f) <==>
            Shows(sys, j, p, f) && !(j == i && Region(first * PAGE_SIZE, count * PAGE_SIZE).Has(p))
  {
    hide Munmap, OwnedFrames, AttrsAt, Space.Valid;
    MunmapExact(sys.spaces[i], first, count);
  }

  // A page that shows a frame owned inside the request, but is not in it, does not own it.
  lemma OwnedOnlyThere(sys: System, i: nat, requested: Region, j: nat, p: nat, f: nat)
    requires OnePageEach(sys.spaces) && i in sys.spaces
    ensures Shows(sys, j, p, f) && !(j == i && requested.Has(p)) && f in OwnedFrames(sys.spaces[i], requested)
            ==> !Owns(sys.spaces[j], p)
  {
    hide Owns;
  }

  // Changed protection, split grants or not, moves no frame.
  lemma ProtectAccounted(sys: System, i: nat, base: nat, pages: nat, prot: MapFlags)
    requires Accounted(sys) && i in sys.spaces
    ensures var r := sys.(spaces := sys.spaces[i := Mprotect(sys.spaces[i], base, pages, prot).0]);
            Accounted(r) && Held(r) == Held(sys)
  {
    hide AttrsAt, Mprotect, Space.Valid;
    var t := Mprotect(sys.spaces[i], base, pages, prot).0;
    var _ := MprotectExact(sys.spaces[i], base, pages, prot);
    var r := sys.(spaces := sys.spaces[i := t]);
    forall p: nat
      ensures Owns(t, p) <==> Owns(sys.spaces[i], p)
      ensures Owns(t, p) ==> p in sys.spaces[i].table && t.table[p].frame == sys.spaces[i].table[p].frame
    {}
    SameOwners(sys, i, t);
  }

  lemma SameOwners(sys: System, i: nat, t: Space)
    requires i in sys.spaces && OnePageEach(sys.spaces)
    requires forall p: nat :: Owns(t, p) <==> Owns(sys.spaces[i], p)
    requires forall p: nat :: Owns(t, p) ==>
               p in sys.spaces[i].table && p in t.table && t.table[p].frame == sys.spaces[i].table[p].frame
    ensures OnePageEach(sys.spaces[i := t])
    ensures Held(sys.(spaces := sys.spaces[i := t])) == Held(sys)
  {
    hide Owns;
    var r := sys.(spaces := sys.spaces[i := t]);
    forall f: nat
      ensures f in Held(r) <==> f in Held(sys)
    {
      if f in Held(sys) {
        var j, p :| j in sys.spaces && p in sys.spaces[j].table && Owns(sys.spaces[j], p) &&
          sys.spaces[j].table[p].frame == f;
        assert j in r.spaces && Owns(r.spaces[j], p) && p in r.spaces[j].table;
      }
    }
  }

  /// Transfer of a grant, or of a leading part of one, to another space

  ghost predicate CanTransfer(sys: System, i: nat, k: nat, n: nat, j: nat) {
    && HasSpace(sys, i) && HasSpace(sys, j) && i != j && OnePageEach(sys.spaces) && n > 0
    && k in sys.spaces[i].grants.inner && k + n * PAGE_SIZE <= sys.spaces[i].grants.inner[k].region.End()
  }

  // Every page of a grant is mapped, so its frames can be read off the table.
  lemma GrantPages(s: Space, k: nat, n: nat)
    requires s.Valid() && k in s.grants.inner && n > 0 && k + n * PAGE_SIZE <= s.grants.inner[k].region.End()
    ensures CanCarve(s.grants, k, Region(k, n * PAGE_SIZE))
    ensures forall x :: 0 <= x < n ==> PageAt(k, x) in s.table
    ensures s.grants.inner[k].attrs.OwnsFrames() ==> forall x :: 0 <= x < n ==> Owns(s, PageAt(k, x))
    ensures !s.grants.inner[k].attrs.OwnsFrames() ==> forall p :: Region(k, n * PAGE_SIZE).Has(p) ==> !Owns(s, p)
  {
    hide AttrsAt, Space.Valid, UserGrants.Valid, Owns, Aligned;
    var owns := s.grants.inner[k].attrs.OwnsFrames();
    ValidParts(s);
    GrantKey(s.grants, k);
    PagesAligned(k, n);
    forall x | 0 <= x < n
      ensures PageAt(k, x) in s.table && (owns ==> Owns(s, PageAt(k, x)))
    {
      GrantByte(s, k, PageAt(k, x));
    }
    forall p: nat | Region(k, n * PAGE_SIZE).Has(p)
      ensures !owns ==> !Owns(s, p)
    {
      GrantByte(s, k, p);
    }
  }

  lemma PagesAligned(k: nat, n: nat)
    requires Aligned(k)
    ensures Aligned(n * PAGE_SIZE) && forall x :: 0 <= x < n ==> Aligned(PageAt(k, x))
  {
  }

  lemma GrantByte(s: Space, k: nat, p: nat)
    requires s.Valid() && k in s.grants.inner && s.grants.inner[k].region.Has(p)
    ensures Aligned(p) ==> p in s.table
    ensures Owns(s, p) <==> Aligned(p) && s.grants.inner[k].attrs.OwnsFrames()
  {
    hide AttrsAt;
    GrantAttrs(s.grants, k);
  }

  // What the transferred pages become in the other space.
  ghost function Carried(sys: System, i: nat, k: nat, n: nat): Mapping
    requires HasSpace(sys, i) && n > 0 && k in sys.spaces[i].grants.inner
    requires k + n * PAGE_SIZE <= sys.spaces[i].grants.inner[k].region.End()
  {
    GrantPages(sys.spaces[i], k, n);
    Mapping(FramesAt(sys.spaces[i].table, k, n), sys.spaces[i].grants.inner[k].attrs)
  }

  ghost function SourceLeft(sys: System, i: nat, k: nat, n: nat): Space
    requires HasSpace(sys, i) && n > 0 && k in sys.spaces[i].grants.inner
    requires k + n * PAGE_SIZE <= sys.spaces[i].grants.inner[k].region.End()
  {
    var s := sys.spaces[i];
    GrantPages(s, k, n);
    var piece := Region(k, n * PAGE_SIZE);
    Space(Carve(s.grants, k, piece), s.table - PagesIn(piece), s.mmapMin)
  }

  lemma SourceWithout(sys: System, i: nat, k: nat, n: nat)
    requires HasSpace(sys, i) && n > 0 && k in sys.spaces[i].grants.inner
    requires k + n * PAGE_SIZE <= sys.spaces[i].grants.inner[k].region.End()
    ensures Without(sys.spaces[i], SourceLeft(sys, i, k, n), Region(k, n * PAGE_SIZE))
  {
    hide AttrsAt, Carve, UserGrants.Valid;
    GrantPages(sys.spaces[i], k, n);
    var s := sys.spaces[i];
    var piece := Region(k, n * PAGE_SIZE);
    AgreeAfterUnmap(s.grants.inner, Carve(s.grants, k, piece).inner, s.table, piece);
  }

  lemma CarriedFrame(sys: System, i: nat, k: nat, n: nat, f: nat)
    requires HasSpace(sys, i) && n > 0 && k in sys.spaces[i].grants.inner
    requires k + n * PAGE_SIZE <= sys.spaces[i].grants.inner[k].region.End()
    ensures f in Claimed(Carried(sys, i, k, n)) <==> f in OwnedFrames(sys.spaces[i], Region(k, n * PAGE_SIZE))
  {
    hide Owns, Space.Valid, UserGrants.Valid, Aligned;
    var s := sys.spaces[i];
    GrantPages(s, k, n);
    ValidParts(s);
    GrantKey(s.grants, k);
    var m := Carried(sys, i, k, n);
    if m.attrs.OwnsFrames() {
      CarriedOwned(s, k, n, m.frames, f);
    }
  }

  lemma CarriedOwned(s: Space, k: nat, n: nat, frames: seq<nat>, f: nat)
    requires s.Valid() && Aligned(k) && |frames| == n
    requires forall x :: 0 <= x < n ==>
               Owns(s, PageAt(k, x)) && PageAt(k, x) in s.table && frames[x] == s.table[PageAt(k, x)].frame
    ensures f in frames <==> f in OwnedFrames(s, Region(k, n * PAGE_SIZE))
  {
    hide Owns, Space.Valid, Aligned;
    var piece := Region(k, n * PAGE_SIZE);
    if f in OwnedFrames(s, piece) {
      var p :| p in s.table && Owns(s, p) && piece.Has(p) && s.table[p].frame == f;
      OwnsAligned(s, p);
      var x := PageNumber(k, n, p);
      assert frames[x] == f;
    }
    if f in frames {
      var x :| 0 <= x < n && frames[x] == f;
      assert piece.Has(PageAt(k, x));
    }
  }

  lemma PageNumber(k: nat, n: nat, p: nat) returns (x: nat)
    requires Aligned(k) && Aligned(p) && Region(k, n * PAGE_SIZE).Has(p)
    ensures x < n && p == PageAt(k, x)
  {
    x := (p - k) / PAGE_SIZE;
  }

  lemma CarriedDistinct(sys: System, i: nat, k: nat, n: nat)
    requires HasSpace(sys, i) && n > 0 && k in sys.spaces[i].grants.inner && OnePageEach(sys.spaces)
    requires k + n * PAGE_SIZE <= sys.spaces[i].grants.inner[k].region.End()
    ensures var m := Carried(sys, i, k, n); m.attrs.OwnsFrames() ==> NoRepeats(m.frames)
  {
    var s := sys.spaces[i];
    GrantPages(s, k, n);
    hide Owns, Space.Valid;
    var m := Carried(sys, i, k, n);
    if m.attrs.OwnsFrames() {
      forall x, y | 0 <= x < y < n
        ensures m.frames[x] != m.frames[y]
      {
        assert Owns(s, PageAt(k, x)) && Owns(s, PageAt(k, y));
      }
    }
  }

  lemma CarriedClaims(sys: System, i: nat, k: nat, n: nat)
    requires HasSpace(sys, i) && n > 0 && k in sys.spaces[i].grants.inner
    requires k + n * PAGE_SIZE <= sys.spaces[i].grants.inner[k].region.End()
    ensures Claimed(Carried(sys, i, k, n)) == OwnedFrames(sys.spaces[i], Region(k, n * PAGE_SIZE))
  {
    hide Owns, Claimed, Carried, OwnedFrames, Space.Valid;
    forall f: nat
      ensures f in Claimed(Carried(sys, i, k, n)) <==> f in OwnedFrames(sys.spaces[i], Region(k, n * PAGE_SIZE))
    {
      CarriedFrame(sys, i, k, n, f);
    }
  }

  lemma TransferReady(sys: System, i: nat, k: nat, n: nat, j: nat, region: Region)
    requires CanTransfer(sys, i, k, n, j) && CanPlace(sys.spaces[j], region, Carried(sys, i, k, n))
    ensures CanAttach(Detach(sys, i, SourceLeft(sys, i, k, n), Region(k, n * PAGE_SIZE)), j, region,
              Carried(sys, i, k, n))
  {
    hide Owns, Claimed, Carried, OwnedFrames, Space.Valid, SourceLeft, OnePageEach, CanPlace;
    CarriedClaims(sys, i, k, n);
    CarriedDistinct(sys, i, k, n);
  }

  lemma OwnsAligned(s: Space, p: nat)
    requires Owns(s, p) && s.Valid()
    ensures Aligned(p)
  {
  }

  ghost function Transfer(
    sys: System, i: nat, k: nat, n: nat, j: nat, page: Option<nat>, flags: MapFlags
  ): Result<System>
    requires CanTransfer(sys, i, k, n, j)
  {
    var m := Carried(sys, i, k, n);
    var r := Mmap(sys.spaces[j], page, flags, m);
    if r.Err? then Err(r.error) else
      TransferReady(sys, i, k, n, j, r.value.0);
      Ok(Attach(Detach(sys, i, SourceLeft(sys, i, k, n), Region(k, n * PAGE_SIZE)), j, r.value.0, m))
  }

  // A transfer takes the pages away from one space and gives them to the other, page by page in the same
  // order, with the frame, protection, owner and file they had; nothing else changes anywhere.
  lemma TransferExact(
    sys: System, i: nat, k: nat, n: nat, j: nat, page: Option<nat>, flags: MapFlags
  ) returns (region: Region)
    requires CanTransfer(sys, i, k, n, j) && Transfer(sys, i, k, n, j, page, flags).Ok?
    ensures var r := Transfer(sys, i, k, n, j, page, flags).value;
            && r.spaces.Keys == sys.spaces.Keys
            && (forall o :: o in sys.spaces && o != i && o != j ==> r.spaces[o] == sys.spaces[o])
            && var src, dst := sys.spaces[i], sys.spaces[j];
               && Without(src, r.spaces[i], Region(k, n * PAGE_SIZE))
               && region.size == n * PAGE_SIZE && Aligned(region.start)
               && (forall x: nat :: x < n ==>
                     && PageAt(k, x) in src.table && PageAt(region.start, x) in r.spaces[j].table
                     && r.spaces[j].table[PageAt(region.start, x)] == src.table[PageAt(k, x)])
               && (forall p :: p in dst.table ==> p in r.spaces[j].table && r.spaces[j].table[p] == dst.table[p])
               && (forall b :: AttrsAt(r.spaces[j].grants.inner, b) ==
                     if region.Has(b) then Some(src.grants.inner[k].attrs) else AttrsAt(dst.grants.inner, b))
  {
    hide Owns, OnePageEach, CanPlace, Place, Space.Valid, Mmap, SourceLeft, OwnedFrames, Claimed, AttrsAt, Without;
    var m := Carried(sys, i, k, n);
    region := Mmap(sys.spaces[j], page, flags, m).value.0;
    TransferReady(sys, i, k, n, j, region);
    SourceWithout(sys, i, k, n);
    GrantPages(sys.spaces[i], k, n);
    PlaceExact(sys.spaces[j], region, m);
    PlaceRegion(sys.spaces[j], region, m);
    var dst' := Place(sys.spaces[j], region, m);
    forall x: nat | x < n
      ensures PageAt(k, x) in sys.spaces[i].table && PageAt(region.start, x) in dst'.table
      ensures dst'.table[PageAt(region.start, x)] == sys.spaces[i].table[PageAt(k, x)]
    {
      PlacedAt(sys.spaces[j], region, m, x);
      PageIndex(region, n, x);
      TransferredFlags(sys.spaces[i], k, PageAt(k, x), dst', PageAt(region.start, x));
    }
    forall p | p in sys.spaces[j].table
      ensures p in dst'.table && dst'.table[p] == sys.spaces[j].table[p]
    {
      PlacedPage(sys.spaces[j], region, m, p);
      MappedOutside(sys.spaces[j], region, m, p);
    }
  }

  lemma TransferredFlags(s: Space, k: nat, p: nat, t: Space, q: nat)
    requires s.Valid() && t.Valid() && k in s.grants.inner && s.grants.inner[k].region.Has(p) && p in s.table
    requires q in t.table && AttrsAt(t.grants.inner, q) == Some(s.grants.inner[k].attrs)
    ensures t.table[q].flags == s.table[p].flags
  {
    hide AttrsAt, UserGrants.Valid;
    GrantAttrs(s.grants, k);
  }

  lemma MappedOutside(s: Space, region: Region, m: Mapping, p: nat)
    requires CanPlace(s, region, m) && p in s.table
    ensures !region.Has(p)
  {
    hide AttrsAt;
    PlaceExact(s, region, m);
  }

  // A transfer moves the frames: the same frames are held before and after, none is freed.
  lemma TransferAccounted(sys: System, i: nat, k: nat, n: nat, j: nat, page: Option<nat>, flags: MapFlags)
    requires Accounted(sys) && CanTransfer(sys, i, k, n, j) && sys.loose == {}
    ensures var r := Transfer(sys, i, k, n, j, page, flags);
            r.Ok? ==>
              && Accounted(r.value) && r.value.loose == {}
              && Held(r.value) == Held(sys) && r.value.free == sys.free
  {
    hide Owns, OnePageEach, Held, CanPlace, Place, Space.Valid, Mmap, SourceLeft, Carried, OwnedFrames, Claimed;
    var m := Carried(sys, i, k, n);
    var r := Mmap(sys.spaces[j], page, flags, m);
    if r.Ok? {
      var piece := Region(k, n * PAGE_SIZE);
      var t := SourceLeft(sys, i, k, n);
      TransferReady(sys, i, k, n, j, r.value.0);
      CarriedClaims(sys, i, k, n);
      SourceWithout(sys, i, k, n);
      OwnedAreHeld(sys, i, piece);
      DetachAccounted(sys, i, t, piece);
      DetachHeld(sys, i, t, piece);
      AttachAccounted(Detach(sys, i, t, piece), j, r.value.0, m);
      AttachHeld(Detach(sys, i, t, piece), j, r.value.0, m);
    }
  }

  /// try_clone

  // What a byte becomes in the clone: file mappings are skipped, owned memory gets fresh frames,
  // everything else is borrowed again.
  function CloneAttrs(a: Attrs): Option<Attrs> {
    if a.desc.Some? then None else Some(Attrs(a.flags, a.owned, a.owned, None))
  }

  ghost predicate ClonePending(sys: System, i: nat, j: nat, keys: seq<nat>, supply: seq<nat>) {
    && i != j && HasSpace(sys, i) && HasSpace(sys, j) && StrictlySorted(keys)
    && (forall k :: k in keys ==>
          k in sys.spaces[i].grants.inner && IsFree(sys.spaces[j].grants.inner, sys.spaces[i].grants.inner[k].region))
    && NoRepeats(supply) && Elements(supply) <= sys.free
  }

  // How many fresh frames cloning the grant takes.
  function Needs(g: Grant): nat {
    if g.attrs.owned then g.region.size / PAGE_SIZE else 0
  }

  // The grant at `k` cloned into space `j`, with the fresh frames of `supply` if it is owned.
  ghost function CloneGrant(sys: System, i: nat, j: nat, k: nat, supply: seq<nat>): (r: (System, Mapping))
    requires i != j && HasSpace(sys, i) && HasSpace(sys, j) && k in sys.spaces[i].grants.inner
    requires IsFree(sys.spaces[j].grants.inner, sys.spaces[i].grants.inner[k].region)
    requires NoRepeats(supply) && Elements(supply) <= sys.free
    requires sys.spaces[i].grants.inner[k].attrs.desc.None?
    requires |supply| == Needs(sys.spaces[i].grants.inner[k])
    ensures CanAttach(r.0, j, sys.spaces[i].grants.inner[k].region, r.1)
    ensures r.0.spaces == sys.spaces && r.0.free >= sys.free - Elements(supply)
    ensures CloneAttrs(sys.spaces[i].grants.inner[k].attrs) == Some(r.1.attrs)
  {
    var g := sys.spaces[i].grants.inner[k];
    var a := CloneAttrs(g.attrs).value;
    if a.owned then (Allocate(sys, Elements(supply)), Mapping(supply, a)) else
      GrantPages(sys.spaces[i], k, g.region.size / PAGE_SIZE);
      (sys, Mapping(FramesAt(sys.spaces[i].table, k, g.region.size / PAGE_SIZE), a))
  }

  lemma CloneNext(sys: System, i: nat, j: nat, keys: seq<nat>, supply: seq<nat>, n: nat)
    requires ClonePending(sys, i, j, keys, supply) && keys != [] && n <= |supply|
    requires sys.spaces[i].grants.inner[keys[0]].attrs.desc.None? && n == Needs(sys.spaces[i].grants.inner[keys[0]])
    ensures NoRepeats(supply[..n]) && Elements(supply[..n]) <= sys.free
    ensures var g := sys.spaces[i].grants.inner[keys[0]];
            var (sys1, m) := CloneGrant(sys, i, j, keys[0], supply[..n]);
            ClonePending(Attach(sys1, j, g.region, m), i, j, keys[1..], supply[n..])
  {
    hide AttrsAt, Place, CanPlace, CloneGrant, IsFree, UserGrants.Valid;
    var inner := sys.spaces[i].grants.inner;
    var g := inner[keys[0]];
    var (sys1, m) := CloneGrant(sys, i, j, keys[0], supply[..n]);
    var next := Attach(sys1, j, g.region, m);
    PlaceExact(sys.spaces[j], g.region, m);
    assert Elements(supply[n..]) !! Elements(supply[..n]);
    forall k | k in keys[1..]
      ensures k in inner && IsFree(next.spaces[j].grants.inner, inner[k].region)
    {
      assert k in keys && keys[0] < k;
      GrantsApart(sys.spaces[i].grants, keys[0], k);
      FreeAfterPlace(sys.spaces[j], g.region, m, inner[k].region);
    }
  }

  lemma GrantsApart(u: UserGrants, k: nat, l: nat)
    requires u.Valid() && k in u.inner && l in u.inner && k < l
    ensures u.inner[k].region.End() <= u.inner[l].region.start
  {
  }

  lemma FreeAfterPlace(s: Space, region: Region, m: Mapping, other: Region)
    requires CanPlace(s, region, m) && IsFree(s.grants.inner, other) && region.End() <= other.start
    ensures IsFree(Place(s, region, m).grants.inner, other)
  {
    forall b | other.Has(b)
      ensures !Covered(Place(s, region, m).grants.inner, b)
    {
      CoveredAfterAdd(s.grants.inner, Grant(region, m.attrs), b);
    }
  }

  ghost function CloneLoop(sys: System, i: nat, j: nat, keys: seq<nat>, supply: seq<nat>): Result<System>
    requires ClonePending(sys, i, j, keys, supply)
    decreases |keys|
  {
    if keys == [] then Ok(sys) else
      var g := sys.spaces[i].grants.inner[keys[0]];
      var n := Needs(g);
      if g.attrs.desc.Some? then CloneLoop(sys, i, j, keys[1..], supply)
      else if |supply| < n then Err(ENOMEM) else
        CloneNext(sys, i, j, keys, supply, n);
        var (sys1, m) := CloneGrant(sys, i, j, keys[0], supply[..n]);
        CloneLoop(Attach(sys1, j, g.region, m), i, j, keys[1..], supply[n..])
  }

  lemma CloneGrantAccounted(sys: System, i: nat, j: nat, k: nat, supply: seq<nat>)
    requires Accounted(sys) && sys.loose == {}
    requires i != j && HasSpace(sys, i) && HasSpace(sys, j) && k in sys.spaces[i].grants.inner
    requires IsFree(sys.spaces[j].grants.inner, sys.spaces[i].grants.inner[k].region)
    requires NoRepeats(supply) && Elements(supply) <= sys.free
    requires sys.spaces[i].grants.inner[k].attrs.desc.None?
    requires |supply| == Needs(sys.spaces[i].grants.inner[k])
    ensures var (sys1, m) := CloneGrant(sys, i, j, k, supply);
            var n := Attach(sys1, j, sys.spaces[i].grants.inner[k].region, m);
            Accounted(n) && n.loose == {}
  {
    hide Owns, OnePageEach, Held, CanPlace, Place, Space.Valid;
    var (sys1, m) := CloneGrant(sys, i, j, k, supply);
    AllocateAccounted(sys, Elements(supply));
    AttachAccounted(sys1, j, sys.spaces[i].grants.inner[k].region, m);
  }

  lemma {:induction false} CloneLoopAccounted(sys: System, i: nat, j: nat, keys: seq<nat>, supply: seq<nat>)
    requires ClonePending(sys, i, j, keys, supply) && Accounted(sys) && sys.loose == {}
    ensures var r := CloneLoop(sys, i, j, keys, supply); r.Ok? ==> Accounted(r.value) && r.value.loose == {}
    decreases |keys|
  {
    hide Accounted, Place, CanPlace, Space.Valid, CloneGrant, NoRepeats, Elements;
    if keys != [] {
      var g := sys.spaces[i].grants.inner[keys[0]];
      var n := Needs(g);
      if g.attrs.desc.Some? {
        CloneLoopAccounted(sys, i, j, keys[1..], supply);
      } else if n <= |supply| {
        CloneNext(sys, i, j, keys, supply, n);
        CloneGrantAccounted(sys, i, j, keys[0], supply[..n]);
        var (sys1, m) := CloneGrant(sys, i, j, keys[0], supply[..n]);
        CloneLoopAccounted(Attach(sys1, j, g.region, m), i, j, keys[1..], supply[n..]);
      }
    }
  }

  ghost function CloneAt(a: Option<Attrs>): Option<Attrs> {
    if a.None? then None else CloneAttrs(a.value)
  }

  lemma {:induction false} CloneLoopAttrs(sys: System, i: nat, j: nat, keys: seq<nat>, supply: seq<nat>)
    requires ClonePending(sys, i, j, keys, supply)
    ensures var r := CloneLoop(sys, i, j, keys, supply); var src := sys.spaces[i].grants.inner;
            r.Ok? ==>
              && j in r.value.spaces &&
                   (forall o :: o in sys.spaces && o != j ==> o in r.value.spaces && r.value.spaces[o] == sys.spaces[o])
              && forall b :: AttrsAt(r.value.spaces[j].grants.inner, b) ==
                             if InSome(src, keys, b) && CloneAt(AttrsAt(src, b)).Some? then CloneAt(AttrsAt(src, b))
                               else AttrsAt(sys.spaces[j].grants.inner, b)
    decreases |keys|
  {
    hide AttrsAt, Place, CanPlace, UserGrants.Valid, InSome, CloneGrant, NoRepeats, Elements;
    var src := sys.spaces[i].grants.inner;
    InSomeNone(src);
    if keys != [] {
      var g := src[keys[0]];
      var n := Needs(g);
      GrantAttrs(sys.spaces[i].grants, keys[0]);
      forall b
        ensures InSome(src, keys, b) <==> g.region.Has(b) || InSome(src, keys[1..], b)
      {
        InSomeSplit(src, keys, b);
      }
      if g.attrs.desc.Some? {
        CloneLoopAttrs(sys, i, j, keys[1..], supply);
      } else if n <= |supply| {
        CloneNext(sys, i, j, keys, supply, n);
        var (sys1, m) := CloneGrant(sys, i, j, keys[0], supply[..n]);
        PlaceExact(sys.spaces[j], g.region, m);
        CloneLoopAttrs(Attach(sys1, j, g.region, m), i, j, keys[1..], supply[n..]);
      }
    }
  }

  // All grants but file mappings are cloned; how many fresh frames that takes.
  function TotalNeeds(inner: Inner, keys: seq<nat>): nat
    requires forall k :: k in keys ==> k in inner
  {
    if keys == [] then 0 else
      (if inner[keys[0]].attrs.desc.Some? then 0 else Needs(inner[keys[0]])) + TotalNeeds(inner, keys[1..])
  }

  lemma {:induction false} CloneLoopSucceeds(sys: System, i: nat, j: nat, keys: seq<nat>, supply: seq<nat>)
    requires ClonePending(sys, i, j, keys, supply)
    ensures var r := CloneLoop(sys, i, j, keys, supply);
            if TotalNeeds(sys.spaces[i].grants.inner, keys) <= |supply| then r.Ok? else r == Err(ENOMEM)
    decreases |keys|
  {
    hide Place, CanPlace, Space.Valid, CloneGrant, NoRepeats, Elements, IsFree, Needs;
    if keys != [] {
      var g := sys.spaces[i].grants.inner[keys[0]];
      var n := Needs(g);
      if g.attrs.desc.Some? {
        CloneLoopSucceeds(sys, i, j, keys[1..], supply);
      } else if n <= |supply| {
        CloneNext(sys, i, j, keys, supply, n);
        var (sys1, m) := CloneGrant(sys, i, j, keys[0], supply[..n]);
        CloneLoopSucceeds(Attach(sys1, j, g.region, m), i, j, keys[1..], supply[n..]);
      }
    }
  }

  // A page of the clone: fresh where the source owns its memory, otherwise the source's own frame.
  ghost predicate ClonedPage(src: Space, p: nat, frame: nat, unused: set<nat>) {
    && p in src.table && AttrsAt(src.grants.inner, p).Some?
    && if AttrsAt(src.grants.inner, p).value.owned then frame in unused else frame == src.table[p].frame
  }

  lemma CloneGrantPage(sys: System, i: nat, j: nat, k: nat, supply: seq<nat>, p: nat)
    requires i != j && HasSpace(sys, i) && HasSpace(sys, j) && k in sys.spaces[i].grants.inner
    requires IsFree(sys.spaces[j].grants.inner, sys.spaces[i].grants.inner[k].region)
    requires NoRepeats(supply) && Elements(supply) <= sys.free
    requires sys.spaces[i].grants.inner[k].attrs.desc.None?
    requires |supply| == Needs(sys.spaces[i].grants.inner[k])
    requires var (sys1, m) := CloneGrant(sys, i, j, k, supply);
             p in Place(sys.spaces[j], sys.spaces[i].grants.inner[k].region, m).table
    ensures var (sys1, m) := CloneGrant(sys, i, j, k, supply);
            var e := Place(sys.spaces[j], sys.spaces[i].grants.inner[k].region, m).table[p];
            || (p in sys.spaces[j].table && e == sys.spaces[j].table[p])
            || ClonedPage(sys.spaces[i], p, e.frame, Elements(supply))
  {
    hide AttrsAt, Owns, Place, IsFree, UserGrants.Valid, NoRepeats;
    var s := sys.spaces[i];
    var g := s.grants.inner[k];
    var (sys1, m) := CloneGrant(sys, i, j, k, supply);
    PlacedPage(sys.spaces[j], g.region, m, p);
    if g.region.Has(p) {
      PlacedAligned(sys.spaces[j], g.region, m, p);
      GrantAttrs(s.grants, k);
      GrantKey(s.grants, k);
      GrantPages(s, k, g.region.size / PAGE_SIZE);
      var x := (p - k) / PAGE_SIZE;
      assert PageAt(k, x) == p && 0 <= x < |m.frames|;
    }
  }

  lemma PlacedAligned(s: Space, region: Region, m: Mapping, p: nat)
    requires CanPlace(s, region, m) && p in Place(s, region, m).table
    ensures Aligned(p)
  {
    PlaceExact(s, region, m);
  }

  lemma {:induction false} CloneLoopTable(sys: System, i: nat, j: nat, keys: seq<nat>, supply: seq<nat>, p: nat)
    requires ClonePending(sys, i, j, keys, supply)
    requires var r := CloneLoop(sys, i, j, keys, supply); r.Ok? && j in r.value.spaces && p in r.value.spaces[j].table
    ensures var e := CloneLoop(sys, i, j, keys, supply).value.spaces[j].table[p];
            || (p in sys.spaces[j].table && e == sys.spaces[j].table[p])
            || ClonedPage(sys.spaces[i], p, e.frame, Elements(supply))
    decreases |keys|
  {
    hide Place, CanPlace, Space.Valid, CloneGrant, NoRepeats, IsFree, ClonedPage, Needs;
    if keys != [] {
      var g := sys.spaces[i].grants.inner[keys[0]];
      var n := Needs(g);
      if g.attrs.desc.Some? {
        CloneLoopTable(sys, i, j, keys[1..], supply, p);
      } else {
        CloneNext(sys, i, j, keys, supply, n);
        var (sys1, m) := CloneGrant(sys, i, j, keys[0], supply[..n]);
        var next := Attach(sys1, j, g.region, m);
        CloneLoopTable(next, i, j, keys[1..], supply[n..], p);
        if p in next.spaces[j].table {
          CloneGrantPage(sys, i, j, keys[0], supply[..n], p);
        }
        var frame := CloneLoop(sys, i, j, keys, supply).value.spaces[j].table[p].frame;
        FreshGrows(sys.spaces[i], p, frame, Elements(supply[..n]), Elements(supply));
        FreshGrows(sys.spaces[i], p, frame, Elements(supply[n..]), Elements(supply));
      }
    }
  }

  lemma FreshGrows(src: Space, p: nat, frame: nat, some: set<nat>, all: set<nat>)
    requires some <= all
    ensures ClonedPage(src, p, frame, some) ==> ClonedPage(src, p, frame, all)
  {
  }

  lemma NewSpaceAccounted(sys: System, j: nat)
    requires Accounted(sys) && j !in sys.spaces
    ensures var n := sys.(spaces := sys.spaces[j := NEW_SPACE]); Accounted(n) && Held(n) == Held(sys)
  {
    hide AttrsAt;
    NewSpaceValid();
    var n := sys.(spaces := sys.spaces[j := NEW_SPACE]);
    hide Space.Valid;
    forall f: nat
      ensures f in Held(n) <==> f in Held(sys)
    {
      if f in Held(sys) {
        var i, p :| i in sys.spaces && p in sys.spaces[i].table && Owns(sys.spaces[i], p) &&
          sys.spaces[i].table[p].frame == f;
        assert i in n.spaces && Owns(n.spaces[i], p);
      }
    }
    assert Held(n) == Held(sys);
  }

  lemma CloneStart(sys: System, i: nat, j: nat, supply: seq<nat>)
    requires HasSpace(sys, i) && j !in sys.spaces && NoRepeats(supply) && Elements(supply) <= sys.free
    ensures ClonePending(sys.(spaces := sys.spaces[j := NEW_SPACE]), i, j, Ascending(sys.spaces[i].grants.inner.Keys),
              supply)
  {
    hide Agree;
    NewSpaceValid();
    var inner := sys.spaces[i].grants.inner;
    forall k | k in inner
      ensures IsFree(NEW_SPACE.grants.inner, inner[k].region)
    {}
    hide Space.Valid, IsFree;
  }

  ghost function TryClone(sys: System, i: nat, j: nat, supply: seq<nat>): Result<System>
    requires HasSpace(sys, i) && j !in sys.spaces && NoRepeats(supply) && Elements(supply) <= sys.free
  {
    CloneStart(sys, i, j, supply);
    CloneLoop(sys.(spaces := sys.spaces[j := NEW_SPACE]), i, j, Ascending(sys.spaces[i].grants.inner.Keys), supply)
  }

  lemma NothingMapped()
    ensures forall b :: AttrsAt(NEW_SPACE.grants.inner, b).None?
  {
  }

  lemma TryCloneSucceeds(sys: System, i: nat, j: nat, supply: seq<nat>)
    requires HasSpace(sys, i) && j !in sys.spaces && NoRepeats(supply) && Elements(supply) <= sys.free
    ensures var r := TryClone(sys, i, j, supply);
            var src := sys.spaces[i].grants.inner;
            && (if TotalNeeds(src, Ascending(src.Keys)) <= |supply| then r.Ok? else r == Err(ENOMEM))
            && (r.Ok? ==> j in r.value.spaces)
  {
    hide CloneLoop, Space.Valid, AttrsAt, CloneAt;
    var n := sys.(spaces := sys.spaces[j := NEW_SPACE]);
    var keys := Ascending(sys.spaces[i].grants.inner.Keys);
    CloneStart(sys, i, j, supply);
    CloneLoopSucceeds(n, i, j, keys, supply);
    CloneLoopAttrs(n, i, j, keys, supply);
  }

  // A clone succeeds iff the fresh frames suffice for the owned grants. It has, byte for byte, the source's
  // mappings without its files: owned memory owned again in frames that were free, the rest borrowed, in
  // the source's own frames. The source is unchanged.
  lemma TryCloneExact(sys: System, i: nat, j: nat, supply: seq<nat>)
    requires Accounted(sys) && sys.loose == {} && i in sys.spaces && j !in sys.spaces && NoRepeats(supply)
    requires Elements(supply) <= sys.free
    ensures var r := TryClone(sys, i, j, supply);
            var src := sys.spaces[i].grants.inner;
            if TotalNeeds(src, Ascending(src.Keys)) <= |supply| then r.Ok? else r == Err(ENOMEM)
    ensures var r := TryClone(sys, i, j, supply);
            r.Ok? ==>
              && Accounted(r.value) && r.value.loose == {}
              && i in r.value.spaces && r.value.spaces[i] == sys.spaces[i] && j in r.value.spaces
              && (forall o :: o in sys.spaces ==> o in r.value.spaces && r.value.spaces[o] == sys.spaces[o])
              && (forall b :: AttrsAt(r.value.spaces[j].grants.inner, b) ==
                    CloneAt(AttrsAt(sys.spaces[i].grants.inner, b)))
              && (forall p :: p in r.value.spaces[j].table ==>
                    ClonedPage(sys.spaces[i], p, r.value.spaces[j].table[p].frame, Elements(supply)))
  {
    hide ClonedPage, Held, OnePageEach, AttrsAt, CloneLoop, Space.Valid;
    var n := sys.(spaces := sys.spaces[j := NEW_SPACE]);
    var inner := sys.spaces[i].grants.inner;
    var keys := Ascending(inner.Keys);
    CloneStart(sys, i, j, supply);
    NothingMapped();
    NewSpaceAccounted(sys, j);
    CloneLoopAccounted(n, i, j, keys, supply);
    CloneLoopAttrs(n, i, j, keys, supply);
    TryCloneSucceeds(sys, i, j, supply);
    AllKeysCover(inner);
    var r := TryClone(sys, i, j, supply);
    if r.Ok? {
      forall p | p in r.value.spaces[j].table
        ensures ClonedPage(sys.spaces[i], p, r.value.spaces[j].table[p].frame, Elements(supply))
      {
        CloneLoopTable(n, i, j, keys, supply, p);
      }
    }
  }

  // What the clone has of each byte and page: all but files, with the same protection, owned where the
  // source owns it and then from the allocator.
  lemma TryCloneBits(sys: System, i: nat, j: nat, supply: seq<nat>)
    requires Accounted(sys) && sys.loose == {} && i in sys.spaces && j !in sys.spaces && NoRepeats(supply)
    requires Elements(supply) <= sys.free && TryClone(sys, i, j, supply).Ok?
    ensures var r := TryClone(sys, i, j, supply).value;
            && j in r.spaces && r.spaces[j].Valid()
            && SameButFiles(sys.spaces[i], r.spaces[j])
  {
    hide TryClone, ClonedPage, Held, OnePageEach, AttrsAt, CloneAt, Space.Valid, Elements, NoRepeats, TotalNeeds,
      SameButFiles;
    TryCloneExact(sys, i, j, supply);
    ClonedBits(sys.spaces[i], TryClone(sys, i, j, supply).value.spaces[j]);
  }

  ghost predicate SameButFiles(src: Space, clone: Space) {
    && (forall b :: AttrsAt(clone.grants.inner, b).Some? <==>
          AttrsAt(src.grants.inner, b).Some? && AttrsAt(src.grants.inner, b).value.desc.None?)
    && (forall b :: AttrsAt(clone.grants.inner, b).Some? ==>
          var a, n := AttrsAt(src.grants.inner, b).value, AttrsAt(clone.grants.inner, b).value;
          n.flags == a.flags && n.owned == a.owned && n.allocatorOwned == a.owned && n.desc.None?)
    && (forall p :: p in clone.table ==> p in src.table && clone.table[p].flags == src.table[p].flags)
  }

  lemma ClonedBits(src: Space, clone: Space)
    requires src.Valid() && clone.Valid()
    requires forall b :: AttrsAt(clone.grants.inner, b) == CloneAt(AttrsAt(src.grants.inner, b))
    ensures SameButFiles(src, clone)
  {
    hide AttrsAt, UserGrants.Valid;
  }

  lemma AllKeysCover(inner: Inner)
    ensures forall b :: InSome(inner, Ascending(inner.Keys), b) <==> AttrsAt(inner, b).Some?
  {
  }

  /// Runs over any number of spaces

  datatype SystemOp =
    | DoCreate(i: nat)
    | DoZeroed(i: nat, page: Option<nat>, flags: MapFlags, frames: seq<nat>)
    | DoShared(i: nat, page: Option<nat>, flags: MapFlags, mapping: Mapping)
    | DoProtect(i: nat, base: nat, pages: nat, prot: MapFlags)
    | DoUnmap(i: nat, first: nat, count: nat)
    | DoTransfer(i: nat, k: nat, n: nat, j: nat, page: Option<nat>, flags: MapFlags)
    | DoClone(i: nat, j: nat, supply: seq<nat>)

  // The space exists, the frames the allocator hands out are distinct free ones, and a transfer
  // names a leading part of a grant.
  ghost predicate Enabled(sys: System, op: SystemOp) {
    match op
    case DoCreate(i) => i !in sys.spaces
    case DoZeroed(i, _, _, frames) => i in sys.spaces && NoRepeats(frames) && Elements(frames) <= sys.free
    case DoShared(i, _, _, m) => i in sys.spaces && !m.attrs.OwnsFrames()
    case DoProtect(i, _, _, _) => i in sys.spaces
    case DoUnmap(i, _, _) => i in sys.spaces
    case DoTransfer(i, k, n, j, _, _) => CanTransfer(sys, i, k, n, j)
    case DoClone(i, j, supply) =>
      i in sys.spaces && j !in sys.spaces && NoRepeats(supply) && Elements(supply) <= sys.free
  }

  ghost function OrSame(r: Result<System>, sys: System): System {
    if r.Ok? then r.value else sys
  }

  // A failed operation leaves the state as it was; see README.md for the failures this leaves out.
  ghost function Step(sys: System, op: SystemOp): System
    requires Enabled(sys, op) && forall i :: i in sys.spaces ==> sys.spaces[i].Valid()
  {
    match op
    case DoCreate(i) => sys.(spaces := sys.spaces[i := NEW_SPACE])
    case DoZeroed(i, page, flags, frames) => OrSame(MapZeroed(sys, i, page, flags, frames), sys)
    case DoShared(i, page, flags, m) => OrSame(MapShared(sys, i, page, flags, m), sys)
    case DoProtect(i, base, pages, prot) => sys.(spaces :=
      sys.spaces[i := Mprotect(sys.spaces[i], base, pages, prot).0])
    case DoUnmap(i, first, count) => UnmapPages(sys, i, first, count)
    case DoTransfer(i, k, n, j, page, flags) => OrSame(Transfer(sys, i, k, n, j, page, flags), sys)
    case DoClone(i, j, supply) => OrSame(TryClone(sys, i, j, supply), sys)
  }

  lemma StepAccounted(sys: System, op: SystemOp)
    requires Accounted(sys) && sys.loose == {} && Enabled(sys, op)
    ensures Accounted(Step(sys, op)) && Step(sys, op).loose == {}
  {
    hide Held, OnePageEach, MapZeroed, MapShared, UnmapPages, Transfer, TryClone, Mprotect, NoRepeats, Elements,
      CanTransfer, Space.Valid;
    match op
    case DoCreate(i) => NewSpaceAccounted(sys, i);
    case DoZeroed(i, page, flags, frames) => MapZeroedAccounted(sys, i, page, flags, frames);
    case DoShared(i, page, flags, m) => MapSharedAccounted(sys, i, page, flags, m);
    case DoProtect(i, base, pages, prot) => ProtectAccounted(sys, i, base, pages, prot);
    case DoUnmap(i, first, count) => UnmapAccounted(sys, i, first, count);
    case DoTransfer(i, k, n, j, page, flags) => TransferAccounted(sys, i, k, n, j, page, flags);
    case DoClone(i, j, supply) => CloneAccounted(sys, i, j, supply);
  }

  lemma UnmapAccounted(sys: System, i: nat, first: nat, count: nat)
    requires Accounted(sys) && i in sys.spaces && sys.loose == {}
    ensures Accounted(UnmapPages(sys, i, first, count)) && UnmapPages(sys, i, first, count).loose == {}
  {
    hide Held, OnePageEach, UnmapPages, Space.Valid;
    UnmapPagesExact(sys, i, first, count);
  }

  lemma CloneAccounted(sys: System, i: nat, j: nat, supply: seq<nat>)
    requires Accounted(sys) && sys.loose == {} && i in sys.spaces && j !in sys.spaces && NoRepeats(supply)
    requires Elements(supply) <= sys.free
    ensures var r := TryClone(sys, i, j, supply); r.Ok? ==> Accounted(r.value) && r.value.loose == {}
  {
    hide TryClone, Held, OnePageEach, ClonedPage, CloneAt, AttrsAt, TotalNeeds, Space.Valid, NoRepeats, Elements;
    TryCloneExact(sys, i, j, supply);
  }

  // The state after a run, from no spaces and a given stock of free frames; None if some operation
  // of the run was not enabled. In every state of every run each owned frame is owned through one
  // page of one space and is not free, and frames handed out = frames given back + frames held.
  ghost function SystemAfter(free: set<nat>, ops: seq<SystemOp>): (r: Option<System>)
    ensures r.Some? ==> Accounted(r.value) && r.value.loose == {}
    ensures r.Some? ==> r.value.handedOut == r.value.givenBack + |Held(r.value)|
  {
    if ops == [] then
      var start := System(map[], free, {}, 0, 0);
      assert Held(start) == {};
      Some(start)
    else
      var prev := SystemAfter(free, ops[..|ops| - 1]);
      var op := ops[|ops| - 1];
      if prev.None? || !Enabled(prev.value, op) then None else
        StepAccounted(prev.value, op);
        Some(Step(prev.value, op))
  }

  /// A borrowed page that outlives its owner

  const PLAIN := MapFlags(true, false, false, false)
  const BORROWED := Mapping([5], Attrs(PageFlagsOf(PLAIN), false, false, None))

  // Frame 5 mapped at page 1 of a new space.
  lemma MapsPageOne(m: Mapping)
    requires m.frames == [5]
    ensures NEW_SPACE.Valid()
    ensures var r := Mmap(NEW_SPACE, Some(1), PLAIN, m);
            && r.Ok? && r.value.0 == Region(PAGE_SIZE, PAGE_SIZE)
            && PAGE_SIZE in r.value.1.table && r.value.1.table[PAGE_SIZE].frame == 5
            && (Owns(r.value.1, PAGE_SIZE) <==> m.attrs.OwnsFrames())
            && r.value.1.grants.inner == map[PAGE_SIZE := Grant(Region(PAGE_SIZE, PAGE_SIZE), m.attrs)]
  {
    hide Mmap, Place, CanPlace, Owns;
    NewSpaceValid();
    MmapOutcome(NEW_SPACE, Some(1), PLAIN, m);
    PlaceExact(NEW_SPACE, Region(PAGE_SIZE, PAGE_SIZE), m);
    PlacedAt(NEW_SPACE, Region(PAGE_SIZE, PAGE_SIZE), m, 0);
    assert PageAt(PAGE_SIZE, 0) == PAGE_SIZE;
  }

  const TWO_SPACES := System(map[0 := NEW_SPACE, 1 := NEW_SPACE], {5, 6}, {}, 0, 0)

  lemma TwoSpacesAccounted()
    ensures Accounted(TWO_SPACES)
  {
    hide Owns, Space.Valid;
    var none := System(map[], {5, 6}, {}, 0, 0);
    assert Held(none) == {};
    NewSpaceAccounted(none, 0);
    var one := none.(spaces := none.spaces[0 := NEW_SPACE]);
    NewSpaceAccounted(one, 1);
    assert one.(spaces := one.spaces[1 := NEW_SPACE]) == TWO_SPACES;
  }

  // Space 0 has page 1 of its own.
  ghost function Owner(): (sys: System)
    ensures Accounted(sys) && sys.loose == {} && sys.free == {6} && sys.spaces.Keys == {0, 1}
    ensures Shows(sys, 0, PAGE_SIZE, 5) && Owns(sys.spaces[0], PAGE_SIZE) && sys.spaces[1] == NEW_SPACE
  {
    OwnerWorks();
    MapZeroed(TWO_SPACES, 0, Some(1), PLAIN, [5]).value
  }

  lemma OwnerWorks()
    ensures HasSpace(TWO_SPACES, 0) && NoRepeats([5]) && Elements([5]) <= TWO_SPACES.free
    ensures var r := MapZeroed(TWO_SPACES, 0, Some(1), PLAIN, [5]);
            && r.Ok? && Accounted(r.value) && r.value.loose == {} && r.value.free == {6}
            && r.value.spaces.Keys == {0, 1}
            && Shows(r.value, 0, PAGE_SIZE, 5) && Owns(r.value.spaces[0], PAGE_SIZE) && r.value.spaces[1] == NEW_SPACE
  {
    hide Mmap, Held, OnePageEach, Space.Valid, Owns, MapZeroed, NoRepeats, Elements;
    TwoSpacesAccounted();
    OneElement(5);
    MapsPageOne(Mapping([5], Attrs(PageFlagsOf(PLAIN), true, true, None)));
    MapZeroedAccounted(TWO_SPACES, 0, Some(1), PLAIN, [5]);
    MapZeroedExact(TWO_SPACES, 0, Some(1), PLAIN, [5]);
  }

  // Space 1 has borrowed the page.
  ghost function Lent(): (sys: System)
    ensures Accounted(sys) && sys.loose == {} && sys.free == {6} && sys.spaces.Keys == {0, 1}
    ensures Shows(sys, 0, PAGE_SIZE, 5) && Owns(sys.spaces[0], PAGE_SIZE) && Shows(sys, 1, PAGE_SIZE, 5)
    ensures sys.spaces[1].grants.inner == map[PAGE_SIZE := Grant(Region(PAGE_SIZE, PAGE_SIZE), BORROWED.attrs)]
  {
    LendingWorks();
    MapShared(Owner(), 1, Some(1), PLAIN, BORROWED).value
  }

  lemma LendingWorks()
    ensures var r := MapShared(Owner(), 1, Some(1), PLAIN, BORROWED);
            && r.Ok? && Accounted(r.value) && r.value.loose == {} && r.value.free == {6}
            && r.value.spaces.Keys == {0, 1}
            && Shows(r.value, 0, PAGE_SIZE, 5) && Owns(r.value.spaces[0], PAGE_SIZE) && Shows(r.value, 1, PAGE_SIZE, 5)
            && r.value.spaces[1].grants.inner == map[PAGE_SIZE := Grant(Region(PAGE_SIZE, PAGE_SIZE), BORROWED.attrs)]
  {
    hide Mmap, Held, OnePageEach, Space.Valid, Owns, Owner, MapShared;
    MapsPageOne(BORROWED);
    MapSharedAccounted(Owner(), 1, Some(1), PLAIN, BORROWED);
    MapSharedExact(Owner(), 1, Some(1), PLAIN, BORROWED);
  }

  lemma OneElement(f: nat)
    ensures NoRepeats([f]) && Elements([f]) == {f}
  {
  }

  // Space 0 unmaps the page: its frame is free, and space 1 still has it mapped.
  lemma BorrowOutlivesOwner()
    ensures var r := UnmapPages(Lent(), 0, 1, 1); 5 in r.free && Shows(r, 1, PAGE_SIZE, 5)
  {
    hide Lent, UnmapPages, Owns, Held, OnePageEach, Space.Valid, AttrsAt;
    UnmapPagesExact(Lent(), 0, 1, 1);
    UnmappedShows(Lent(), 0, 1, 1, 1, PAGE_SIZE, 5);
    assert 5 in OwnedFrames(Lent().spaces[0], Region(1 * PAGE_SIZE, 1 * PAGE_SIZE));
  }
}
