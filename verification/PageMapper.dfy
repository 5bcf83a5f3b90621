// The page table and the frame allocator as mutable objects, and the page-by-page loops of
// `Grant::{physmap, zeroed, copy_inner, remap, unmap}` over them.
module Paging {
  import opened Regions
  import opened Grants
  import opened AddressSpaces
  import opened Frames

  // A page table. Mapping a page can fail for want of memory for the table itself.
  class PageMapper {
    var table: Table

    constructor ()
      ensures table == map[]
    {
      table := map[];
    }

    // `grows` is whether there is memory for the table levels that the page needs.
    method MapPhys(page: nat, frame: nat, flags: PageFlags, grows: bool) returns (ok: bool)
      modifies this
      ensures ok <==> grows
      ensures table == if ok then old(table)[page := Entry(frame, flags)] else old(table)
    {
      ok := grows;
      if ok {
        table := table[page := Entry(frame, flags)];
      }
    }

    method UnmapPhys(page: nat) returns (entry: Option<Entry>)
      modifies this
      ensures table == old(table) - {page}
      ensures entry == if page in old(table) then Some(old(table)[page]) else None
    {
      if page in table {
        entry := Some(table[page]);
        table := table - {page};
      } else {
        entry := None;
      }
    }

    method Remap(page: nat, flags: PageFlags) returns (ok: bool)
      modifies this
      ensures ok <==> page in old(table)
      ensures table == if ok then old(table)[page := old(table)[page].(flags := flags)] else old(table)
    {
      ok := page in table;
      if ok {
        table := table[page := table[page].(flags := flags)];
      }
    }
  }

  class FrameAllocator {
    var free: set<nat>

    constructor (stock: set<nat>)
      ensures free == stock
    {
      free := stock;
    }

    method Allocate() returns (frame: Option<nat>)
      modifies this
      ensures frame.None? ==> old(free) == {} && free == old(free)
      ensures frame.Some? ==> frame.value in old(free) && free == old(free) - {frame.value}
    {
      if free == {} {
        frame := None;
      } else {
        var f :| f in free;
        free := free - {f};
        frame := Some(f);
      }
    }

    // A frame that is free already must not be given back again.
    method Deallocate(frame: nat)
      requires frame !in free
      modifies this
      ensures free == old(free) + {frame}
    {
      free := free + {frame};
    }
  }

  ghost function FirstPages(base: nat, n: nat): set<nat> {
    set x | 0 <= x < n :: PageAt(base, x)
  }

  // The pages of a page range, counted from its start.
  lemma PagesAreFirst(base: nat, n: nat)
    requires Aligned(base)
    ensures PagesIn(Region(base, n * PAGE_SIZE)) == FirstPages(base, n)
  {
    forall p | p in PagesIn(Region(base, n * PAGE_SIZE))
      ensures p in FirstPages(base, n)
    {
      var x := PageNumber(base, n, p);
      assert p == PageAt(base, x);
    }
  }

  lemma MapPagesAt(table: Table, base: nat, m: Mapping, p: nat)
    requires Aligned(base)
    ensures var t := MapPages(table, base, m); var pages := FirstPages(base, |m.frames|);
            && (p in t <==> p in table || p in pages)
            && (p in pages ==>
                  && p >= base && (p - base) / PAGE_SIZE < |m.frames|
                  && t[p] == Entry(m.frames[(p - base) / PAGE_SIZE], m.attrs.flags))
            && (p !in pages && p in table ==> t[p] == table[p])
  {
    PagesAreFirst(base, |m.frames|);
  }

  lemma FirstPagesStep(base: nat, n: nat)
    requires Aligned(base)
    ensures FirstPages(base, n + 1) == FirstPages(base, n) + {PageAt(base, n)}
    ensures PageAt(base, n) !in FirstPages(base, n)
    ensures (PageAt(base, n) - base) / PAGE_SIZE == n
  {
  }

  lemma MapOneMore(table: Table, base: nat, frames: seq<nat>, frame: nat, attrs: Attrs)
    requires Aligned(base)
    ensures MapPages(table, base, Mapping(frames, attrs))[PageAt(base, |frames|) := Entry(frame, attrs.flags)]
            == MapPages(table, base, Mapping(frames + [frame], attrs))
  {
    hide MapPages, FirstPages, PageAt;
    FirstPagesStep(base, |frames|);
    forall p: nat
      ensures var t := MapPages(table, base, Mapping(frames, attrs))[PageAt(base, |frames|) :=
                Entry(frame, attrs.flags)];
              var u := MapPages(table, base, Mapping(frames + [frame], attrs));
              (p in t <==> p in u) && (p in t ==> t[p] == u[p])
    {
      MapPagesAt(table, base, Mapping(frames, attrs), p);
      MapPagesAt(table, base, Mapping(frames + [frame], attrs), p);
    }
  }

  lemma MapNone(table: Table, base: nat, attrs: Attrs)
    requires Aligned(base)
    ensures MapPages(table, base, Mapping([], attrs)) == table
  {
  }

  /// Grant::zeroed

  // One fresh frame is mapped at each page. It succeeds iff there are frames and, for the first `room` pages,
  // room in the table for all of them. On a failure the first pages stay mapped, with the frames they got,
  // and a frame that could not be mapped is lost with them.
  method Zeroed(dst: nat, count: nat, flags: PageFlags, mapper: PageMapper, alloc: FrameAllocator, room: nat)
    returns (r: Result<Grant>, ghost frames: seq<nat>, ghost lost: set<nat>)
    modifies mapper, alloc
    ensures NoRepeats(frames) && Elements(frames) + lost <= old(alloc.free) && Elements(frames) !! lost && |lost| <= 1
    ensures alloc.free == old(alloc.free) - Elements(frames) - lost
    ensures mapper.table ==
              MapPages(old(mapper.table), dst * PAGE_SIZE, Mapping(frames, Attrs(flags, true, true, None)))
    ensures r.Ok? ==> r.value == Grant(Region(dst * PAGE_SIZE, count * PAGE_SIZE), Attrs(flags, true, true, None))
    ensures |frames| == Least(count, room, |old(alloc.free)|)
    ensures lost == {} <==> count <= room || |old(alloc.free)| <= room
    ensures r.Ok? <==> count <= room && count <= |old(alloc.free)|
    ensures r.Err? ==> r.error == ENOMEM
  {
    hide MapPages, NoRepeats, Elements;
    var attrs := Attrs(flags, true, true, None);
    var base := dst * PAGE_SIZE;
    NoElements();
    frames, lost := [], {};
    MapNone(mapper.table, base, attrs);
    var i := 0;
    while i < count
      invariant 0 <= i <= Least(count, room, |old(alloc.free)|) && |frames| == i && NoRepeats(frames) && lost == {}
      invariant |alloc.free| == |old(alloc.free)| - i
      invariant Elements(frames) <= old(alloc.free) && alloc.free == old(alloc.free) - Elements(frames)
      invariant mapper.table == MapPages(old(mapper.table), base, Mapping(frames, attrs))
    {
      var f := alloc.Allocate();
      if f.None? {
        return Err(ENOMEM), frames, {};
      }
      var ok := mapper.MapPhys(PageAt(base, i), f.value, flags, i < room);
      if !ok {
        return Err(ENOMEM), frames, {f.value};
      }
      MapOneMore(old(mapper.table), base, frames, f.value, attrs);
      NewElement(frames, f.value);
      frames := frames + [f.value];
      i := i + 1;
    }
    r := Ok(Grant(Region(base, count * PAGE_SIZE), attrs));
  }

  function Least(a: nat, b: nat, c: nat): nat {
    if a <= b && a <= c then a else if b <= c then b else c
  }

  lemma NoElements()
    ensures NoRepeats([]) && Elements([]) == {}
  {
  }

  lemma NewElement(frames: seq<nat>, f: nat)
    requires NoRepeats(frames) && f !in Elements(frames)
    ensures NoRepeats(frames + [f]) && Elements(frames + [f]) == Elements(frames) + {f}
  {
    assert f !in frames;
    assert forall g :: g in frames + [f] <==> g in frames || g == f;
  }

  /// Grant::physmap

  function FrameRun(first: nat, count: nat): (r: seq<nat>)
    ensures |r| == count && forall i :: 0 <= i < count ==> r[i] == first + i
  {
    if count == 0 then [] else FrameRun(first, count - 1) + [first + count - 1]
  }

  // Consecutive frames at consecutive pages. If the table has room for the first `room` pages only, the
  // kernel panics with those in the table.
  method Physmap(phys: nat, dst: nat, count: nat, flags: PageFlags, mapper: PageMapper, room: nat)
    returns (r: Option<Grant>)
    modifies mapper
    ensures var m := Mapping(FrameRun(phys, if count <= room then count else room), Attrs(flags, false, false, None));
            mapper.table == MapPages(old(mapper.table), dst * PAGE_SIZE, m)
    ensures if count <= room then
              r == Some(Grant(Region(dst * PAGE_SIZE, count * PAGE_SIZE), Attrs(flags, false, false, None)))
            else r.None?
  {
    hide MapPages;
    var attrs := Attrs(flags, false, false, None);
    var base := dst * PAGE_SIZE;
    MapNone(mapper.table, base, attrs);
    var i := 0;
    while i < count
      invariant 0 <= i <= count && i <= room
      invariant mapper.table == MapPages(old(mapper.table), base, Mapping(FrameRun(phys, i), attrs))
    {
      var ok := mapper.MapPhys(PageAt(base, i), phys + i, flags, i < room);
      if !ok {
        return None;
      }
      MapOneMore(old(mapper.table), base, FrameRun(phys, i), phys + i, attrs);
      assert FrameRun(phys, i) + [phys + i] == FrameRun(phys, i + 1);
      i := i + 1;
    }
    r := Some(Grant(Region(base, count * PAGE_SIZE), attrs));
  }

  /// Grant::borrow

  // Map the frames behind the source pages at the destination pages. Either all pages are mapped, iff
  // there is room for them, or, rolled back, none; the source table is only read. The kernel panics on an
  // unmapped source page, so that every one is mapped is the precondition.
  method Borrow(
    src: nat, dst: nat, count: nat, attrs: Attrs, srcMapper: PageMapper, dstMapper: PageMapper, room: nat
  ) returns (r: Result<Grant>)
    requires srcMapper != dstMapper && !attrs.owned && !attrs.allocatorOwned
    requires forall x :: 0 <= x < count ==> PageAt(src * PAGE_SIZE, x) in srcMapper.table
    requires forall x :: 0 <= x < count ==> PageAt(dst * PAGE_SIZE, x) !in dstMapper.table
    modifies dstMapper
    ensures r.Ok? ==> r.value == Grant(Region(dst * PAGE_SIZE, count * PAGE_SIZE), attrs)
    ensures var m := Mapping(FramesAt(srcMapper.table, src * PAGE_SIZE, count), attrs);
            r.Ok? ==> dstMapper.table == MapPages(old(dstMapper.table), dst * PAGE_SIZE, m)
    ensures r.Ok? <==> count <= room
    ensures r.Err? ==> r.error == ENOMEM && dstMapper.table == old(dstMapper.table)
  {
    hide MapPages;
    var from := src * PAGE_SIZE;
    var to := dst * PAGE_SIZE;
    var done := 0;
    MapNone(dstMapper.table, to, attrs);
    while done < count
      invariant 0 <= done <= count && done <= room
      invariant dstMapper.table ==
                  MapPages(old(dstMapper.table), to, Mapping(FramesAt(srcMapper.table, from, done), attrs))
    {
      var frame := srcMapper.table[PageAt(from, done)].frame;
      var ok := dstMapper.MapPhys(PageAt(to, done), frame, attrs.flags, done < room);
      if !ok {
        break;
      }
      MapOneMore(old(dstMapper.table), to, FramesAt(srcMapper.table, from, done), frame, attrs);
      done := done + 1;
    }
    if done != count {
      Rollback(to, done, dstMapper, old(dstMapper.table), Mapping(FramesAt(srcMapper.table, from, done), attrs));
      return Err(ENOMEM);
    }
    r := Ok(Grant(Region(to, count * PAGE_SIZE), attrs));
  }

  // Unmap the pages mapped so far.
  method Rollback(to: nat, done: nat, mapper: PageMapper, ghost before: Table, ghost m: Mapping)
    requires Aligned(to) && |m.frames| == done && mapper.table == MapPages(before, to, m)
    requires forall x :: 0 <= x < done ==> PageAt(to, x) !in before
    modifies mapper
    ensures mapper.table == before
  {
    hide MapPages;
    UnmapAllPages(before, to, m);
    ghost var mapped := mapper.table;
    var i := 0;
    while i < done
      invariant 0 <= i <= done
      invariant mapper.table == mapped - FirstPages(to, i)
    {
      var entry := mapper.UnmapPhys(PageAt(to, i));
      i := i + 1;
    }
  }

  lemma UnmapAllPages(before: Table, to: nat, m: Mapping)
    requires Aligned(to) && forall x :: 0 <= x < |m.frames| ==> PageAt(to, x) !in before
    ensures MapPages(before, to, m) - FirstPages(to, |m.frames|) == before
  {
    PagesAreFirst(to, |m.frames|);
  }

  /// Grant::remap and Grant::unmap

  method RemapRange(region: Region, flags: PageFlags, mapper: PageMapper)
    requires region.IsPageRange() && PagesIn(region) <= mapper.table.Keys
    modifies mapper
    ensures mapper.table == RemapPages(old(mapper.table), PagesIn(region), flags)
  {
    var n := region.size / PAGE_SIZE;
    PagesAreFirst(region.start, n);
    var i := 0;
    while i < n
      invariant 0 <= i <= n
      invariant mapper.table == RemapPages(old(mapper.table), FirstPages(region.start, i), flags)
    {
      assert PageAt(region.start, i) in PagesIn(region);
      var ok := mapper.Remap(PageAt(region.start, i), flags);
      i := i + 1;
    }
  }

  // The frames behind some pages.
  ghost function FramesOf(table: Table, pages: set<nat>): set<nat> {
    set p | p in pages && p in table :: table[p].frame
  }

  lemma FramesOfNone(table: Table, base: nat)
    ensures FramesOf(table, FirstPages(base, 0)) == {}
  {
  }

  // The next page adds its frame, which is new if no two pages have the same.
  lemma FramesOfNext(table: Table, base: nat, i: nat, n: nat)
    requires i < n && Aligned(base) && FirstPages(base, n) <= table.Keys
    ensures PageAt(base, i) in table
    ensures FramesOf(table, FirstPages(base, i + 1)) == FramesOf(table, FirstPages(base, i)) +
              {table[PageAt(base, i)].frame}
    ensures (forall p, q :: p in FirstPages(base, n) && q in FirstPages(base, n) && p != q ==>
              table[p].frame != table[q].frame)
            ==> table[PageAt(base, i)].frame !in FramesOf(table, FirstPages(base, i))
  {
    assert PageAt(base, i) in FirstPages(base, n);
    assert FirstPages(base, i) <= FirstPages(base, n);
    FirstPagesStep(base, i);
  }

  // Unmap every page and give the frames back if the grant owns them: each is unmapped through one
  // page and outside the free set, so none is given back twice.
  method UnmapRange(region: Region, attrs: Attrs, mapper: PageMapper, alloc: FrameAllocator)
    requires region.IsPageRange() && PagesIn(region) <= mapper.table.Keys
    requires attrs.OwnsFrames() ==> forall p :: p in PagesIn(region) ==> mapper.table[p].frame !in alloc.free
    requires attrs.OwnsFrames() ==> forall p, q :: p in PagesIn(region) && q in PagesIn(region) && p != q ==>
               mapper.table[p].frame != mapper.table[q].frame
    modifies mapper, alloc
    ensures mapper.table == old(mapper.table) - PagesIn(region)
    ensures alloc.free == old(alloc.free) + if attrs.OwnsFrames() then FramesOf(old(mapper.table), PagesIn(region))
              else {}
  {
    hide FramesOf;
    var n := region.size / PAGE_SIZE;
    PagesAreFirst(region.start, n);
    ghost var pages := FirstPages(region.start, n);
    FramesOfNone(old(mapper.table), region.start);
    var i := 0;
    while i < n
      invariant 0 <= i <= n
      invariant mapper.table == old(mapper.table) - FirstPages(region.start, i)
      invariant alloc.free == old(alloc.free) + if attrs.OwnsFrames()
                  then FramesOf(old(mapper.table), FirstPages(region.start, i)) else {}
    {
      FramesOfNext(old(mapper.table), region.start, i, n);
      var p := PageAt(region.start, i);
      assert p in pages && p !in FirstPages(region.start, i);
      var entry := mapper.UnmapPhys(p);
      if attrs.OwnsFrames() {
        alloc.Deallocate(entry.value.frame);
      }
      i := i + 1;
    }
  }
}
