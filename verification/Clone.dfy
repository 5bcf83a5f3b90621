// The page contents that `AddrSpace::try_clone` copies into the frames of the clone.
module Clones {
  import opened Regions
  import opened Ordered
  import opened Grants
  import opened AddressSpaces
  import opened Frames
  import opened Captures

  // One frame copied over another.
  function CopyFrame(mem: Memory, from: nat, to: nat): Memory {
    (a: nat) => if InFrame(to, a) then mem(from * PAGE_SIZE + (a - to * PAGE_SIZE)) else mem(a)
  }

  ghost predicate InBoth(src: Table, dst: Table, pages: seq<nat>) {
    forall x :: 0 <= x < |pages| ==> pages[x] in src && pages[x] in dst
  }

  // The loop over the pages of owned grants.
  function CopyPages(mem: Memory, src: Table, dst: Table, pages: seq<nat>): Memory
    requires InBoth(src, dst, pages)
    decreases |pages|
  {
    if pages == [] then mem else
      var n := |pages| - 1;
      CopyFrame(CopyPages(mem, src, dst, pages[..n]), src[pages[n]].frame, dst[pages[n]].frame)
  }

  // Which frame the contents of frame `f` come from once all pages are copied.
  function Origin(src: Table, dst: Table, pages: seq<nat>, f: nat): nat
    requires InBoth(src, dst, pages)
    decreases |pages|
  {
    if pages == [] then f else
      var n := |pages| - 1;
      Origin(src, dst, pages[..n], if dst[pages[n]].frame == f then src[pages[n]].frame else f)
  }

  lemma FrameBytes(f: nat, g: nat, o: nat)
    requires o < PAGE_SIZE
    ensures InFrame(f, g * PAGE_SIZE + o) <==> f == g
  {
  }

  lemma {:induction false} CopiedFromOrigin(mem: Memory, src: Table, dst: Table, pages: seq<nat>, f: nat, o: nat)
    requires InBoth(src, dst, pages) && o < PAGE_SIZE
    ensures CopyPages(mem, src, dst, pages)(f * PAGE_SIZE + o) == mem(Origin(src, dst, pages, f) * PAGE_SIZE + o)
    decreases |pages|
  {
    hide InFrame;
    if pages != [] {
      var n := |pages| - 1;
      FrameBytes(dst[pages[n]].frame, f, o);
      CopiedFromOrigin(mem, src, dst, pages[..n], if dst[pages[n]].frame == f then src[pages[n]].frame else f, o);
    }
  }

  // Frame `f` is none of those copied to.
  ghost predicate Kept(dst: Table, pages: seq<nat>, f: nat) {
    forall x :: 0 <= x < |pages| && pages[x] in dst ==> dst[pages[x]].frame != f
  }

  lemma {:induction false} KeptIsOrigin(src: Table, dst: Table, pages: seq<nat>, f: nat)
    requires InBoth(src, dst, pages) && Kept(dst, pages, f)
    ensures Origin(src, dst, pages, f) == f
    decreases |pages|
  {
    if pages != [] {
      KeptIsOrigin(src, dst, pages[..|pages| - 1], f);
    }
  }

  // A frame copied to gets the contents of the frame copied from, if that one is not overwritten.
  lemma {:induction false} CopiedOrigin(src: Table, dst: Table, pages: seq<nat>, x: nat)
    requires InBoth(src, dst, pages) && x < |pages| && Kept(dst, pages, src[pages[x]].frame)
    requires forall y, z :: 0 <= y < z < |pages| ==> dst[pages[y]].frame != dst[pages[z]].frame
    ensures Origin(src, dst, pages, dst[pages[x]].frame) == src[pages[x]].frame
    decreases |pages|
  {
    var n := |pages| - 1;
    if x < n {
      CopiedOrigin(src, dst, pages[..n], x);
    } else {
      KeptIsOrigin(src, dst, pages[..n], src[pages[n]].frame);
    }
  }

  // The pages whose contents are copied: those of owned grants without a file, in order.
  ghost predicate IsCopied(src: Space, p: nat) {
    && p in src.table && AttrsAt(src.grants.inner, p).Some?
    && AttrsAt(src.grants.inner, p).value.owned && AttrsAt(src.grants.inner, p).value.desc.None?
  }

  ghost function CopiedPages(src: Space): (pages: seq<nat>)
    ensures StrictlySorted(pages)
    ensures forall x :: 0 <= x < |pages| ==> IsCopied(src, pages[x])
    ensures forall p :: IsCopied(src, p) ==> p in pages
  {
    var pages := Ascending(set p | p in src.table && IsCopied(src, p));
    assert forall x :: 0 <= x < |pages| ==> pages[x] in pages;
    pages
  }

  // Memory after a successful clone.
  ghost function CloneMemory(mem: Memory, src: Space, clone: Space): Memory
    requires forall p :: IsCopied(src, p) ==> p in clone.table
  {
    CopyPages(mem, src.table, clone.table, CopiedPages(src))
  }

  // A copied page is an owned page of the clone, and every page of the clone is of one of two kinds.
  lemma ClonePages(sys: System, i: nat, j: nat, supply: seq<nat>)
    requires Accounted(sys) && sys.loose == {} && i in sys.spaces && j !in sys.spaces
    requires NoRepeats(supply) && Elements(supply) <= sys.free && TryClone(sys, i, j, supply).Ok?
    ensures var r := TryClone(sys, i, j, supply).value;
            && j in r.spaces && Accounted(r)
            && (forall p :: IsCopied(sys.spaces[i], p) ==>
                  p in r.spaces[j].table && Owns(r.spaces[j], p) && r.spaces[j].table[p].frame in Elements(supply))
            && (forall p :: p in r.spaces[j].table && !IsCopied(sys.spaces[i], p) ==>
                  p in sys.spaces[i].table && r.spaces[j].table[p].frame == sys.spaces[i].table[p].frame)
  {
    hide TryClone, AttrsAt, Held, OnePageEach, Elements, NoRepeats, Space.Valid;
    TryCloneExact(sys, i, j, supply);
    var src, clone := sys.spaces[i], TryClone(sys, i, j, supply).value.spaces[j];
    forall p | IsCopied(src, p)
      ensures p in clone.table && Owns(clone, p) && clone.table[p].frame in Elements(supply)
    {
      CoveredMapped(src, p, clone);
    }
    forall p | p in clone.table && !IsCopied(src, p)
      ensures p in src.table && clone.table[p].frame == src.table[p].frame
    {
      MappedCovered(clone, p);
    }
  }

  lemma MappedCovered(s: Space, p: nat)
    requires s.Valid() && p in s.table
    ensures AttrsAt(s.grants.inner, p).Some?
  {
  }

  lemma CoveredMapped(s: Space, p: nat, t: Space)
    requires s.Valid() && t.Valid() && p in s.table && AttrsAt(t.grants.inner, p).Some?
    ensures p in t.table
  {
  }

  // Copied pages have frames of their own, all of them fresh.
  lemma CloneFrames(sys: System, i: nat, j: nat, supply: seq<nat>)
    requires Accounted(sys) && sys.loose == {} && i in sys.spaces && j !in sys.spaces
    requires NoRepeats(supply) && Elements(supply) <= sys.free && TryClone(sys, i, j, supply).Ok?
    ensures var r := TryClone(sys, i, j, supply).value;
            var pages := CopiedPages(sys.spaces[i]);
            && j in r.spaces && InBoth(sys.spaces[i].table, r.spaces[j].table, pages)
            && (forall y, z :: 0 <= y < z < |pages| ==>
                  r.spaces[j].table[pages[y]].frame != r.spaces[j].table[pages[z]].frame)
            && (forall f: nat :: f !in Elements(supply) ==> Kept(r.spaces[j].table, pages, f))
  {
    hide TryClone, Owns, Held, Elements, NoRepeats, CopiedPages, Space.Valid;
    ClonePages(sys, i, j, supply);
  }

  // Byte `v` reads the same in the clone, with the memory after the copies, as in the source before them.
  ghost predicate ReadsSame(mem: Memory, src: Space, clone: Space, v: nat)
    requires forall p :: IsCopied(src, p) ==> p in clone.table
  {
    PageOf(v) in src.table && PageOf(v) in clone.table &&
    Captures.Read(CloneMemory(mem, src, clone), clone.table, v) == Captures.Read(mem, src.table, v)
  }

  // All bytes of the page do, whatever the memory holds.
  ghost predicate PageReadsSame(src: Space, clone: Space, p: nat)
    requires forall p :: IsCopied(src, p) ==> p in clone.table
  {
    forall mem: Memory, v: nat :: PageOf(v) == p ==> ReadsSame(mem, src, clone, v)
  }

  lemma ReadsByOrigin(src: Space, clone: Space, p: nat)
    requires (forall q :: IsCopied(src, q) ==> q in clone.table) && p in src.table && p in clone.table && Aligned(p)
    ensures PageReadsSame(src, clone, p) <==>
            Origin(src.table, clone.table, CopiedPages(src), clone.table[p].frame) == src.table[p].frame
  {
    hide CopyPages, Origin, CopiedPages, IsCopied, PageOf, Aligned;
    CopiedInBoth(src, clone);
    var origin := Origin(src.table, clone.table, CopiedPages(src), clone.table[p].frame);
    var from := src.table[p].frame;
    if origin == from {
      forall mem: Memory, v: nat | PageOf(v) == p
        ensures ReadsSame(mem, src, clone, v)
      {
        OffsetInPage(v);
        CopiedFromOrigin(mem, src.table, clone.table, CopiedPages(src), clone.table[p].frame, v - p);
      }
    }
    if PageReadsSame(src, clone, p) {
      // Memory that holds something different everywhere tells the two frames apart.
      var distinct: Memory := (a: nat) => a;
      FirstInPage(p);
      assert ReadsSame(distinct, src, clone, p);
      CopiedFromOrigin(distinct, src.table, clone.table, CopiedPages(src), clone.table[p].frame, 0);
      assert origin * PAGE_SIZE + 0 == from * PAGE_SIZE + 0;
    }
  }

  lemma CopiedInBoth(src: Space, clone: Space)
    requires forall q :: IsCopied(src, q) ==> q in clone.table
    ensures InBoth(src.table, clone.table, CopiedPages(src))
  {
  }

  lemma OffsetInPage(v: nat)
    ensures PageOf(v) <= v < PageOf(v) + PAGE_SIZE
  {
  }

  lemma FirstInPage(p: nat)
    requires Aligned(p)
    ensures PageOf(p) == p
  {
  }

  // The frame behind the page is taken by the clone as fresh, for some copied page.
  ghost predicate Retaken(src: Space, clone: Space, p: nat) {
    exists q :: IsCopied(src, q) && p in src.table && q in clone.table && clone.table[q].frame == src.table[p].frame
  }

  // No page whose contents are copied lies in a free frame. True of frames from the allocator; the others
  // that a space may own, those of the bootstrap image, were never in its hands.
  ghost predicate CopiedNotFree(sys: System, i: nat)
    requires i in sys.spaces
  {
    forall q :: IsCopied(sys.spaces[i], q) ==> sys.spaces[i].table[q].frame !in sys.free
  }

  // What the source owns reads the same in the clone. So does every other page, iff the clone does not take
  // its frame as fresh, as it can when the page was borrowed from an owner that has given the frame back.
  lemma CloneReadsSameIff(sys: System, i: nat, j: nat, supply: seq<nat>, p: nat)
    requires Accounted(sys) && sys.loose == {} && i in sys.spaces && j !in sys.spaces
    requires NoRepeats(supply) && Elements(supply) <= sys.free && TryClone(sys, i, j, supply).Ok?
    requires var r := TryClone(sys, i, j, supply).value; j in r.spaces && p in r.spaces[j].table
    ensures var src, clone := sys.spaces[i], TryClone(sys, i, j, supply).value.spaces[j];
            && p in src.table && (forall q :: IsCopied(src, q) ==> q in clone.table)
            && (Owns(src, p) ==> PageReadsSame(src, clone, p))
            && (CopiedNotFree(sys, i) ==>
                  (PageReadsSame(src, clone, p) <==> IsCopied(src, p) || !Retaken(src, clone, p)))
  {
    hide TryClone, Owns, Held, OnePageEach, Elements, NoRepeats, CopiedPages, Space.Valid, IsCopied, Kept, Origin,
      PageReadsSame, AttrsAt, CopiedNotFree, Retaken;
    ClonePages(sys, i, j, supply);
    CloneFrames(sys, i, j, supply);
    var src, clone := sys.spaces[i], TryClone(sys, i, j, supply).value.spaces[j];
    var pages := CopiedPages(src);
    CopiedIsMapped(src, p);
    PageAligned(src, p);
    ReadsByOrigin(src, clone, p);
    if Owns(src, p) {
      OwnedNotFree(sys, i, p);
    }
    if IsCopied(src, p) {
      if Owns(src, p) || CopiedNotFree(sys, i) {
        assert CopiedNotFree(sys, i) ==> src.table[p].frame !in sys.free by { CopiedFrame(sys, i, p); }
        var x :| 0 <= x < |pages| && pages[x] == p;
        CopiedOrigin(src.table, clone.table, pages, x);
      }
    } else {
      SharedOrigin(sys, i, src, clone, p, supply);
    }
  }

  // A page that is not copied shows the source's frame, which then holds what was copied to it, if anything.
  lemma SharedOrigin(sys: System, i: nat, src: Space, clone: Space, p: nat, supply: seq<nat>)
    requires i in sys.spaces && src == sys.spaces[i] && Elements(supply) <= sys.free
    requires p in src.table && p in clone.table && clone.table[p].frame == src.table[p].frame
    requires forall q :: IsCopied(src, q) ==> q in clone.table && clone.table[q].frame in Elements(supply)
    requires var pages := CopiedPages(src);
             && InBoth(src.table, clone.table, pages)
             && (forall y, z :: 0 <= y < z < |pages| ==> clone.table[pages[y]].frame != clone.table[pages[z]].frame)
             && (forall f: nat :: f !in Elements(supply) ==> Kept(clone.table, pages, f))
    ensures var f := src.table[p].frame;
            var origin := Origin(src.table, clone.table, CopiedPages(src), f);
            && (f !in sys.free || !Retaken(src, clone, p) ==> origin == f)
            && (CopiedNotFree(sys, i) && Retaken(src, clone, p) ==> origin != f)
  {
    hide Origin, IsCopied, Elements, CopiedPages;
    var f := src.table[p].frame;
    var pages := CopiedPages(src);
    if f !in sys.free || !Retaken(src, clone, p) {
      KeptIsOrigin(src.table, clone.table, pages, f);
    } else if CopiedNotFree(sys, i) {
      var q :| IsCopied(src, q) && q in clone.table && clone.table[q].frame == f;
      var x :| 0 <= x < |pages| && pages[x] == q;
      CopiedOrigin(src.table, clone.table, pages, x);
    }
  }

  lemma CopiedIsMapped(src: Space, p: nat)
    ensures IsCopied(src, p) ==> p in src.table
  {
  }

  lemma CopiedFrame(sys: System, i: nat, p: nat)
    requires i in sys.spaces && IsCopied(sys.spaces[i], p)
    ensures CopiedNotFree(sys, i) ==> sys.spaces[i].table[p].frame !in sys.free
  {
  }

  lemma PageAligned(s: Space, p: nat)
    requires s.Valid() && p in s.table
    ensures Aligned(p)
  {
  }

  // What a space owns is never in a free frame.
  lemma OwnedNotFree(sys: System, i: nat, p: nat)
    requires Accounted(sys) && i in sys.spaces && Owns(sys.spaces[i], p)
    ensures sys.spaces[i].table[p].frame !in sys.free
  {
    assert sys.spaces[i].table[p].frame in Held(sys);
  }

  // Memory outside the fresh frames is as it was.
  lemma CloneKeepsMemory(sys: System, i: nat, j: nat, supply: seq<nat>, mem: Memory, f: nat, o: nat)
    requires Accounted(sys) && sys.loose == {} && i in sys.spaces && j !in sys.spaces
    requires NoRepeats(supply) && Elements(supply) <= sys.free && TryClone(sys, i, j, supply).Ok?
    requires f !in Elements(supply) && o < PAGE_SIZE
    ensures var r := TryClone(sys, i, j, supply).value;
            && j in r.spaces && (forall q :: IsCopied(sys.spaces[i], q) ==> q in r.spaces[j].table)
            && CloneMemory(mem, sys.spaces[i], r.spaces[j])(f * PAGE_SIZE + o) == mem(f * PAGE_SIZE + o)
  {
    hide TryClone, Owns, Held, OnePageEach, Elements, NoRepeats, CopiedPages, Space.Valid, IsCopied, Kept, Origin,
      CopyPages;
    ClonePages(sys, i, j, supply);
    CloneFrames(sys, i, j, supply);
    var src, clone := sys.spaces[i], TryClone(sys, i, j, supply).value.spaces[j];
    KeptIsOrigin(src.table, clone.table, CopiedPages(src), f);
    CopiedFromOrigin(mem, src.table, clone.table, CopiedPages(src), f, o);
  }

  /// A clone that reads differently

  const LENT_GRANT := Grant(Region(PAGE_SIZE, PAGE_SIZE), BORROWED.attrs)
  const OWN_PAGE := Mapping([6], Attrs(PageFlagsOf(PLAIN), true, true, None))
  const OWN_GRANT := Grant(Region(2 * PAGE_SIZE, PAGE_SIZE), OWN_PAGE.attrs)

  // A space that has borrowed page 1 gets a page 2 of its own.
  lemma MapsPageTwo(s: Space)
    requires s.Valid() && s.grants.inner == map[PAGE_SIZE := LENT_GRANT] && PAGE_SIZE in s.table
    ensures var r := Mmap(s, Some(2), PLAIN, OWN_PAGE);
            && r.Ok? && r.value.1.grants.inner == map[PAGE_SIZE := LENT_GRANT, 2 * PAGE_SIZE := OWN_GRANT]
            && PAGE_SIZE in r.value.1.table && r.value.1.table[PAGE_SIZE] == s.table[PAGE_SIZE]
            && 2 * PAGE_SIZE in r.value.1.table && r.value.1.table[2 * PAGE_SIZE].frame == 6
  {
    hide Mmap, Place, CanPlace, Owns, Space.Valid;
    var region := Region(2 * PAGE_SIZE, PAGE_SIZE);
    assert IsFree(s.grants.inner, region);
    MmapOutcome(s, Some(2), PLAIN, OWN_PAGE);
    PlaceExact(s, region, OWN_PAGE);
    PlacedAt(s, region, OWN_PAGE, 0);
    PlacedPage(s, region, OWN_PAGE, PAGE_SIZE);
    assert PageAt(2 * PAGE_SIZE, 0) == 2 * PAGE_SIZE;
  }

  // Space 1 has borrowed page 1, and has a page 2 of its own; the frame of page 1 has been given back.
  ghost predicate IsAbandoned(sys: System) {
    && Accounted(sys) && sys.loose == {} && sys.free == {5} && sys.spaces.Keys == {0, 1}
    && sys.spaces[1].grants.inner == map[PAGE_SIZE := LENT_GRANT, 2 * PAGE_SIZE := OWN_GRANT]
    && Shows(sys, 1, PAGE_SIZE, 5) && Shows(sys, 1, 2 * PAGE_SIZE, 6)
  }

  // It comes to that when the owner of page 1 unmaps it.
  ghost function Abandoned(): (sys: System)
    ensures IsAbandoned(sys)
  {
    AbandonWorks();
    UnmapPages(MapZeroed(Lent(), 1, Some(2), PLAIN, [6]).value, 0, 1, 1)
  }

  lemma AbandonWorks()
    ensures NoRepeats([6]) && Elements([6]) <= Lent().free
    ensures var grown := MapZeroed(Lent(), 1, Some(2), PLAIN, [6]);
            && grown.Ok? && HasSpace(grown.value, 0)
            && IsAbandoned(UnmapPages(grown.value, 0, 1, 1))
  {
    hide Lent, Mmap, Held, OnePageEach, Space.Valid, Owns, MapZeroed, NoRepeats, Elements, UnmapPages, OwnedFrames;
    OneElement(6);
    MapsPageTwo(Lent().spaces[1]);
    MapZeroedAccounted(Lent(), 1, Some(2), PLAIN, [6]);
    MapZeroedExact(Lent(), 1, Some(2), PLAIN, [6]);
    var grown := MapZeroed(Lent(), 1, Some(2), PLAIN, [6]).value;
    UnmapPagesExact(grown, 0, 1, 1);
    OnePageOwned(grown.spaces[0]);
    UnmapOther(grown);
  }

  lemma OnePageOwned(s: Space)
    requires PAGE_SIZE in s.table && s.table[PAGE_SIZE].frame == 5 && Owns(s, PAGE_SIZE) && s.Valid()
    ensures OwnedFrames(s, Region(1 * PAGE_SIZE, 1 * PAGE_SIZE)) == {5}
  {
    hide Owns, Space.Valid;
    forall p | p in s.table && Region(1 * PAGE_SIZE, 1 * PAGE_SIZE).Has(p)
      ensures p == PAGE_SIZE
    {
      PageAligned(s, p);
    }
  }

  lemma UnmapOther(sys: System)
    requires HasSpace(sys, 0) && sys.spaces.Keys == {0, 1}
    ensures UnmapPages(sys, 0, 1, 1).spaces.Keys == {0, 1} && UnmapPages(sys, 0, 1, 1).spaces[1] == sys.spaces[1]
  {
    hide Munmap, OwnedFrames, Space.Valid;
  }

  // Cloning it takes one frame, and the only free one is the one behind the borrowed page.
  lemma NeedsOneFrame()
    ensures var inner := map[PAGE_SIZE := LENT_GRANT, 2 * PAGE_SIZE := OWN_GRANT];
            TotalNeeds(inner, Ascending(inner.Keys)) == 1
  {
    hide Ascending, TotalNeeds;
    var inner := map[PAGE_SIZE := LENT_GRANT, 2 * PAGE_SIZE := OWN_GRANT];
    SortedPair(Ascending(inner.Keys), PAGE_SIZE, 2 * PAGE_SIZE);
    TotalNeedsPair(inner, PAGE_SIZE, 2 * PAGE_SIZE);
  }

  lemma TotalNeedsPair(inner: Inner, a: nat, b: nat)
    requires a in inner && b in inner && inner[a].attrs.desc.None? && inner[b].attrs.desc.None?
    ensures TotalNeeds(inner, [a, b]) == Needs(inner[a]) + Needs(inner[b])
  {
    hide Needs;
    assert [a, b][1..] == [b] && [b][1..] == [];
    assert TotalNeeds(inner, [b]) == Needs(inner[b]) + TotalNeeds(inner, []);
  }

  lemma SortedPair(s: seq<nat>, a: nat, b: nat)
    requires StrictlySorted(s) && a < b && forall k :: k in s <==> k == a || k == b
    ensures s == [a, b]
  {
    assert a in s && b in s;
    var i :| 0 <= i < |s| && s[i] == a;
    var j :| 0 <= j < |s| && s[j] == b;
    forall x | 0 <= x < |s|
      ensures s[x] == a || s[x] == b
    {
      assert s[x] in s;
    }
    assert s[0] == a && s[1] == b;
    assert s[|s| - 1] == a || s[|s| - 1] == b;
  }

  // A clone of space 1 as space 2 with that frame.
  ghost function CloneOne(sys: System): Result<System> {
    if HasSpace(sys, 1) && 2 !in sys.spaces && NoRepeats([5]) && Elements([5]) <= sys.free
    then TryClone(sys, 1, 2, [5]) else Err(ENOMEM)
  }

  lemma CloneOneWorks(sys: System)
    requires IsAbandoned(sys)
    ensures CloneOne(sys).Ok? && 2 in CloneOne(sys).value.spaces
    ensures CloneOne(sys) == TryClone(sys, 1, 2, [5])
  {
    hide TryClone, TotalNeeds, Space.Valid, Elements, NoRepeats, IsAbandoned;
    AbandonedParts(sys);
    OneElement(5);
    NeedsOneFrame();
    TryCloneSucceeds(sys, 1, 2, [5]);
  }

  lemma AbandonedParts(sys: System)
    requires IsAbandoned(sys)
    ensures HasSpace(sys, 1) && 2 !in sys.spaces && sys.free == {5}
    ensures sys.spaces[1].grants.inner == map[PAGE_SIZE := LENT_GRANT, 2 * PAGE_SIZE := OWN_GRANT]
  {
    hide Held, OnePageEach, Space.Valid;
  }

  // Page 2 is copied and page 1 is not.
  lemma CopiesPageTwo(src: Space)
    requires src.Valid() && src.grants.inner == map[PAGE_SIZE := LENT_GRANT, 2 * PAGE_SIZE := OWN_GRANT]
    requires PAGE_SIZE in src.table && 2 * PAGE_SIZE in src.table
    ensures forall q: nat :: IsCopied(src, q) <==> q == 2 * PAGE_SIZE
    ensures CloneAt(AttrsAt(src.grants.inner, PAGE_SIZE)).Some?
  {
    hide AttrsAt, Space.Valid, UserGrants.Valid, WellFormed;
    ValidParts(src);
    AttrsAtKey(src.grants.inner, PAGE_SIZE, PAGE_SIZE);
    AttrsAtKey(src.grants.inner, 2 * PAGE_SIZE, 2 * PAGE_SIZE);
    forall q: nat | IsCopied(src, q)
      ensures q == 2 * PAGE_SIZE
    {
      PageAligned(src, q);
      assert Covered(src.grants.inner, q) by {
        if !Covered(src.grants.inner, q) { UncoveredAttrs(src.grants.inner, q); }
      }
      var k :| k in src.grants.inner && src.grants.inner[k].region.Has(q);
      AttrsAtKey(src.grants.inner, k, q);
    }
  }

  // The page is in the clone, and reads differently for some memory.
  ghost predicate ReadsWrong(src: Space, clone: Space, p: nat) {
    (forall q :: IsCopied(src, q) ==> q in clone.table) && p in clone.table && !PageReadsSame(src, clone, p)
  }

  lemma AbandonedReadsWrong(sys: System)
    requires IsAbandoned(sys) && CloneOne(sys).Ok? && 2 in CloneOne(sys).value.spaces
    ensures ReadsWrong(sys.spaces[1], CloneOne(sys).value.spaces[2], PAGE_SIZE)
  {
    hide CloneOne, TryClone, ClonedPage, Held, OnePageEach, Space.Valid, AttrsAt, NoRepeats, Elements, PageReadsSame,
      IsCopied, Owns, CloneAt;
    var src, clone := sys.spaces[1], CloneOne(sys).value.spaces[2];
    CloneOneWorks(sys);
    OneElement(5);
    CopiesPageTwo(src);
    TryCloneExact(sys, 1, 2, [5]);
    ClonePages(sys, 1, 2, [5]);
    CoveredMapped(src, PAGE_SIZE, clone);
    CloneReadsSameIff(sys, 1, 2, [5], PAGE_SIZE);
    assert Retaken(src, clone, PAGE_SIZE);
  }

  // In the clone, the borrowed page shows the contents of another page of the source.
  lemma StaleBorrowReadsWrong()
    ensures var sys := Abandoned();
            && 1 in sys.spaces && CloneOne(sys).Ok? && 2 in CloneOne(sys).value.spaces
            && ReadsWrong(sys.spaces[1], CloneOne(sys).value.spaces[2], PAGE_SIZE)
  {
    hide Abandoned, CloneOne, ReadsWrong, Accounted, Shows;
    CloneOneWorks(Abandoned());
    AbandonedReadsWrong(Abandoned());
  }
}
