// Mapping a user buffer contiguously into a scheme: an unaligned head and tail through two kernel
// pages, the whole pages between them by borrowing. Models `UserInner::capture_inner` and
// `CaptureGuard::release_inner` between two different address spaces.
module Captures {
  import opened Regions
  import opened Grants
  import opened AddressSpaces
  import opened Frames

  // physical address -> byte
  type Memory = nat -> int

  function Phys(table: Table, v: nat): nat
    requires PageOf(v) in table
  {
    table[PageOf(v)].frame * PAGE_SIZE + (v - PageOf(v))
  }

  // The byte seen through a page table.
  function Read(mem: Memory, table: Table, v: nat): int
    requires PageOf(v) in table
  {
    mem(Phys(table, v))
  }

  ghost predicate Mapped(table: Table, addr: nat, len: nat) {
    forall v: nat :: addr <= v < addr + len ==> PageOf(v) in table
  }

  // The same for bytes that lie in one page.
  predicate PartMapped(table: Table, addr: nat, n: nat) {
    n == 0 || PageOf(addr) in table
  }

  lemma PartIsMapped(table: Table, addr: nat, n: nat)
    requires n > 0 ==> PageOf(addr) == PageOf(addr + n - 1)
    ensures PartMapped(table, addr, n) <==> Mapped(table, addr, n)
  {
    if n > 0 && Mapped(table, addr, n) {
      assert PageOf(addr) in table;
    }
  }

  function UserBytes(mem: Memory, table: Table, addr: nat, n: nat): (r: seq<int>)
    requires Mapped(table, addr, n)
    ensures |r| == n && forall i :: 0 <= i < n ==> r[i] == Read(mem, table, addr + i)
  {
    if n == 0 then [] else UserBytes(mem, table, addr, n - 1) + [Read(mem, table, addr + (n - 1))]
  }

  function Zeros(n: nat): (r: seq<int>)
    ensures |r| == n && forall i :: 0 <= i < n ==> r[i] == 0
  {
    seq(n, _ => 0)
  }

  // Overwrite one frame.
  function FillFrame(mem: Memory, frame: nat, bytes: seq<int>): Memory
    requires |bytes| == PAGE_SIZE
  {
    (a: nat) => if frame * PAGE_SIZE <= a < frame * PAGE_SIZE + PAGE_SIZE then bytes[a - frame * PAGE_SIZE] else mem(a)
  }

  /// Page arithmetic

  // How a buffer lies on pages: bytes in the head page, whole pages, bytes in the tail page.
  datatype Layout = Layout(page: nat, count: nat, offset: nat, headLen: nat, midCount: nat, tailLen: nat) {
    function HeadPages(): nat {
      if headLen > 0 then 1 else 0
    }

    function TailPages(): nat {
      if tailLen > 0 then 1 else 0
    }
  }

  function LayoutOf(addr: nat, len: nat): (l: Layout)
    requires len > 0
    ensures Aligned(l.page) && l.page + l.offset == addr && l.offset < PAGE_SIZE
    ensures l.headLen + l.midCount * PAGE_SIZE + l.tailLen == len && l.tailLen < PAGE_SIZE
    ensures l.count == l.HeadPages() + l.midCount + l.TailPages() && l.count > 0
    ensures l.headLen > 0 <==> l.offset > 0
    ensures l.headLen > 0 ==> l.offset + l.headLen <= PAGE_SIZE
    ensures l.midCount > 0 || l.tailLen > 0 ==>
              Aligned(addr + l.headLen) && addr + l.headLen == PageAt(l.page, l.HeadPages())
  {
    var (page, count, offset) := PageRangeContaining(addr, len);
    var align := if offset == 0 then 0 else PAGE_SIZE - offset;
    var headLen := if align < len then align else len;
    var rest := len - headLen;
    Layout(page, count, offset, headLen, rest / PAGE_SIZE, rest % PAGE_SIZE)
  }

  /// Mapping at a region known to be free

  function AddPages(s: Space, base: nat, m: Mapping): (r: Result<Space>)
    requires s.Valid() && Aligned(base)
  {
    if m.frames == [] then Ok(s) else
      var r := Mmap(s, Some(base / PAGE_SIZE), NoFlags(m), m);
      if r.Err? then Err(r.error) else Ok(r.value.1)
  }

  function NoFlags(m: Mapping): MapFlags {
    MapFlags(m.attrs.flags.write, m.attrs.flags.execute, false, false)
  }

  // A hint that names a free region is taken, even address zero when that is the lowest allowed.
  lemma PickFree(u: UserGrants, min: nat, base: nat, size: nat, flags: MapFlags)
    requires u.Valid() && Aligned(min) && Aligned(base) && Aligned(size) && size > 0 && (base == 0 ==> min == 0)
    requires IsFree(u.inner, Region(base, size))
    ensures PickRegion(u, min, Some(base / PAGE_SIZE), size, flags) == Ok(Region(base, size))
  {
    hide FindFree, Conflicts, UserGrants.Valid;
    FindFreeAtExact(u, min, base, size, flags);
    if base == 0 {
      FindFreeRefinesSearch(u, 0, size);
      assert Fits(u, 0, size, 0);
    }
  }

  lemma AddPagesExact(s: Space, base: nat, m: Mapping)
    requires s.Valid() && Aligned(base) && (base == 0 ==> s.mmapMin == 0)
    requires base + |m.frames| * PAGE_SIZE <= USER_END && IsFree(s.grants.inner, Region(base, |m.frames| * PAGE_SIZE))
    ensures var region := Region(base, |m.frames| * PAGE_SIZE);
            AddPages(s, base, m) == Ok(if m.frames == [] then s else Place(s, region, m))
    ensures m.frames != [] ==> CanPlace(s, Region(base, |m.frames| * PAGE_SIZE), m)
  {
    hide PickRegion, UserGrants.Valid, Agree, Place, IsFree;
    if m.frames != [] {
      var region := Region(base, |m.frames| * PAGE_SIZE);
      assert region.IsPageRange();
      PickFree(s.grants, s.mmapMin, base, region.size, NoFlags(m));
    }
  }

  // `t` is `s` with new mappings over exactly `area`.
  ghost predicate Grown(s: Space, t: Space, area: Region, attrs: Attrs) {
    && t.Valid() && t.mmapMin == s.mmapMin
    && (forall b :: AttrsAt(t.grants.inner, b) == if area.Has(b) then Some(attrs) else AttrsAt(s.grants.inner, b))
    && (forall p :: p in t.table <==> p in s.table || (area.Has(p) && Aligned(p)))
    && (forall p :: p in s.table && !area.Has(p) ==> t.table[p] == s.table[p])
  }

  lemma PlaceGrows(s: Space, region: Region, m: Mapping)
    requires CanPlace(s, region, m)
    ensures Grown(s, Place(s, region, m), region, m.attrs)
  {
    hide AttrsAt;
    PlaceExact(s, region, m);
  }

  lemma AddPagesGrows(s: Space, base: nat, m: Mapping)
    requires s.Valid() && Aligned(base) && (base == 0 ==> s.mmapMin == 0)
    requires base + |m.frames| * PAGE_SIZE <= USER_END && IsFree(s.grants.inner, Region(base, |m.frames| * PAGE_SIZE))
    ensures var r := AddPages(s, base, m);
            && r.Ok? && Grown(s, r.value, Region(base, |m.frames| * PAGE_SIZE), m.attrs)
            && (forall x :: 0 <= x < |m.frames| ==>
                  PageAt(base, x) in r.value.table && r.value.table[PageAt(base, x)].frame == m.frames[x])
  {
    hide AttrsAt, AddPages, Grown, Place, CanPlace, Space.Valid;
    AddPagesExact(s, base, m);
    if m.frames == [] {
      NoPagesGrown(s, base, m.attrs);
    } else {
      var region := Region(base, |m.frames| * PAGE_SIZE);
      PlaceGrows(s, region, m);
      forall x | 0 <= x < |m.frames|
        ensures PageAt(base, x) in Place(s, region, m).table
        ensures Place(s, region, m).table[PageAt(base, x)].frame == m.frames[x]
      {
        PlacedAt(s, region, m, x);
      }
    }
  }

  lemma GrownTwice(s: Space, t: Space, u: Space, first: nat, n: nat, k: nat, attrs: Attrs)
    requires Grown(s, t, Region(first, n * PAGE_SIZE), attrs)
    requires Grown(t, u, Region(PageAt(first, n), k * PAGE_SIZE), attrs)
    ensures Grown(s, u, Region(first, (n + k) * PAGE_SIZE), attrs)
    ensures forall p :: p in t.table && p < PageAt(first, n) ==> p in u.table && u.table[p] == t.table[p]
  {
    hide AttrsAt, Space.Valid, Aligned;
    var r1, r2, r := Region(first, n * PAGE_SIZE), Region(PageAt(first, n), k * PAGE_SIZE),
      Region(first, (n + k) * PAGE_SIZE);
    forall b
      ensures r.Has(b) <==> r1.Has(b) || r2.Has(b)
      ensures b < PageAt(first, n) ==> !r2.Has(b)
    {}
    hide Region.Has;
  }

  /// capture_inner

  datatype Mode = Ro | Wo

  // The scheme's space and memory after a capture, and where the buffer starts in the scheme.
  datatype Captured = Captured(space: Space, mem: Memory, base: nat)

  function CaptureAttrs(mode: Mode): Attrs {
    Attrs(PageFlagsOf(MapFlags(mode == Wo, false, false, false)), false, false, None)
  }

  function HeadBytes(mode: Mode, mem: Memory, table: Table, addr: nat, l: Layout): (r: seq<int>)
    requires (mode == Ro ==> Mapped(table, addr, l.headLen)) && l.offset + l.headLen <= PAGE_SIZE
    ensures |r| == PAGE_SIZE
  {
    if mode == Ro then Zeros(l.offset) + UserBytes(mem, table, addr, l.headLen) +
      Zeros(PAGE_SIZE - l.offset - l.headLen)
    else Zeros(PAGE_SIZE)
  }

  function TailBytes(mode: Mode, mem: Memory, table: Table, addr: nat, n: nat): (r: seq<int>)
    requires (mode == Ro ==> Mapped(table, addr, n)) && n <= PAGE_SIZE
    ensures |r| == PAGE_SIZE
  {
    if mode == Ro then UserBytes(mem, table, addr, n) + Zeros(PAGE_SIZE - n) else Zeros(PAGE_SIZE)
  }

  // The kernel's head and tail frames are two frames that the client cannot see.
  ghost predicate Private(cur: Table, head: nat, tail: nat) {
    head != tail && forall p :: p in cur ==> cur[p].frame != head && cur[p].frame != tail
  }

  lemma MiddlePages(cur: Table, addr: nat, len: nat, x: nat)
    requires len > 0 && Mapped(cur, addr, len) && x < LayoutOf(addr, len).midCount
    ensures var l := LayoutOf(addr, len); PageAt(PageAt(l.page, l.HeadPages()), x) in cur
  {
    var l := LayoutOf(addr, len);
    assert PageOf(PageAt(addr + l.headLen, x)) in cur;
  }

  // What a successful capture has done, in terms of where it put the buffer.
  ghost predicate IsCapture(
    mode: Mode, cur: Table, dst: Space, mem: Memory, addr: nat, len: nat, head: nat, tail: nat, c: Captured
  )
    requires len > 0
  {
    var l := LayoutOf(addr, len);
    var first := c.base - l.offset;
    && first >= 0 && Room(dst, first, l.count)
    && FindFree(dst.grants.holes, dst.mmapMin, l.count * PAGE_SIZE) == Some(Region(first, l.count * PAGE_SIZE))
    && Grown(dst, c.space, Region(first, l.count * PAGE_SIZE), CaptureAttrs(mode))
    && BackedBy(cur, c.space.table, first, l, head, tail)
    && KernelPages(mode, cur, mem, addr, l, head, tail, c.mem)
  }

  // Only the two kernel pages changed: they hold the buffer's ends and zeros, or zeros alone.
  ghost predicate KernelPages(
    mode: Mode, cur: Table, mem: Memory, addr: nat, l: Layout, head: nat, tail: nat, after: Memory
  ) {
    && (mode == Ro ==> Mapped(cur, addr, l.headLen) && Mapped(cur, TailAddr(addr, l), l.tailLen))
    && l.offset + l.headLen <= PAGE_SIZE && l.tailLen <= PAGE_SIZE
    && (forall a: nat :: !InFrame(head, a) && !InFrame(tail, a) ==> after(a) == mem(a))
    && (l.headLen > 0 ==> forall o :: 0 <= o < PAGE_SIZE ==>
          after(head * PAGE_SIZE + o) == HeadBytes(mode, mem, cur, addr, l)[o])
    && (l.tailLen > 0 ==> forall o :: 0 <= o < PAGE_SIZE ==>
          after(tail * PAGE_SIZE + o) == TailBytes(mode, mem, cur, TailAddr(addr, l), l.tailLen)[o])
  }

  lemma FillFrameAt(mem: Memory, frame: nat, bytes: seq<int>, a: nat)
    requires |bytes| == PAGE_SIZE
    ensures FillFrame(mem, frame, bytes)(a) == if InFrame(frame, a) then bytes[a - frame * PAGE_SIZE] else mem(a)
  {
  }

  // Filling the kernel pages disturbs neither the client's bytes nor one another.
  lemma FilledPages(
    mode: Mode, cur: Table, mem: Memory, addr: nat, l: Layout, head: nat, tail: nat, mem1: Memory, mem2: Memory
  )
    requires Private(cur, head, tail) && l.offset + l.headLen <= PAGE_SIZE && l.tailLen <= PAGE_SIZE
    requires mode == Ro ==> Mapped(cur, addr, l.headLen) && Mapped(cur, TailAddr(addr, l), l.tailLen)
    requires mem1 == if l.headLen > 0 then FillFrame(mem, head, HeadBytes(mode, mem, cur, addr, l)) else mem
    requires mem2 == if l.tailLen > 0
               then FillFrame(mem1, tail, TailBytes(mode, mem1, cur, TailAddr(addr, l), l.tailLen)) else mem1
    ensures KernelPages(mode, cur, mem, addr, l, head, tail, mem2)
  {
    hide Mapped, HeadBytes, UserBytes, FillFrame;
    forall a: nat
      ensures mem1(a) == if l.headLen > 0 && InFrame(head, a)
                then HeadBytes(mode, mem, cur, addr, l)[a - head * PAGE_SIZE] else mem(a)
      ensures mem2(a) == if l.tailLen > 0 && InFrame(tail, a)
                then TailBytes(mode, mem1, cur, TailAddr(addr, l), l.tailLen)[a - tail * PAGE_SIZE] else mem1(a)
    {
      FillFrameAt(mem, head, HeadBytes(mode, mem, cur, addr, l), a);
      FillFrameAt(mem1, tail, TailBytes(mode, mem1, cur, TailAddr(addr, l), l.tailLen), a);
    }
    if mode == Ro {
      SameUserBytes(mem, mem1, cur, TailAddr(addr, l), l.tailLen, head, tail);
    }
    assert TailBytes(mode, mem1, cur, TailAddr(addr, l), l.tailLen) ==
      TailBytes(mode, mem, cur, TailAddr(addr, l), l.tailLen);
  }

  lemma {:induction false} SameUserBytes(mem: Memory, mem1: Memory, cur: Table, addr: nat, n: nat, head: nat, tail: nat)
    requires Mapped(cur, addr, n) && Private(cur, head, tail)
    requires forall a: nat :: !InFrame(head, a) ==> mem1(a) == mem(a)
    ensures UserBytes(mem1, cur, addr, n) == UserBytes(mem, cur, addr, n)
  {
  }

  function TailAddr(addr: nat, l: Layout): nat {
    addr + l.headLen + l.midCount * PAGE_SIZE
  }

  predicate InFrame(frame: nat, a: nat) {
    frame * PAGE_SIZE <= a < frame * PAGE_SIZE + PAGE_SIZE
  }

  // Room for `total` pages from `first` on.
  ghost predicate Room(s: Space, first: nat, total: nat) {
    && s.Valid() && Aligned(first) && (first == 0 ==> s.mmapMin == 0)
    && first + total * PAGE_SIZE <= USER_END && IsFree(s.grants.inner, Region(first, total * PAGE_SIZE))
  }

  // With the first `n` pages of the room taken, the next ones can be.
  lemma GrowMore(s: Space, t: Space, first: nat, n: nat, total: nat, m: Mapping)
    requires Room(s, first, total) && Grown(s, t, Region(first, n * PAGE_SIZE), m.attrs) && n + |m.frames| <= total
    ensures t.Valid() && Aligned(PageAt(first, n))
    ensures var r := AddPages(t, PageAt(first, n), m);
            && r.Ok? && Grown(s, r.value, Region(first, (n + |m.frames|) * PAGE_SIZE), m.attrs)
            && (forall x :: 0 <= x < |m.frames| ==>
                  PageAt(PageAt(first, n), x) in r.value.table &&
                  r.value.table[PageAt(PageAt(first, n), x)].frame == m.frames[x])
            && (forall p :: p in t.table && p < PageAt(first, n) ==>
                  p in r.value.table && r.value.table[p] == t.table[p])
  {
    hide AttrsAt, AddPages, Space.Valid, IsFree;
    NextFree(s, t, first, n, total, |m.frames|, m.attrs);
    AddPagesGrows(t, PageAt(first, n), m);
    GrownTwice(s, t, AddPages(t, PageAt(first, n), m).value, first, n, |m.frames|, m.attrs);
  }

  lemma NextFree(s: Space, t: Space, first: nat, n: nat, total: nat, k: nat, attrs: Attrs)
    requires Room(s, first, total) && Grown(s, t, Region(first, n * PAGE_SIZE), attrs) && n + k <= total
    ensures IsFree(t.grants.inner, Region(PageAt(first, n), k * PAGE_SIZE))
  {
    var part := Region(PageAt(first, n), k * PAGE_SIZE);
    forall b | part.Has(b)
      ensures b < USER_END && !Covered(t.grants.inner, b)
    {
      assert Region(first, total * PAGE_SIZE).Has(b) && !Region(first, n * PAGE_SIZE).Has(b);
      assert AttrsAt(t.grants.inner, b) == AttrsAt(s.grants.inner, b);
    }
  }

  // Head page, whole pages and tail page, one after the other.
  ghost predicate BackedBy(cur: Table, table: Table, first: nat, l: Layout, head: nat, tail: nat) {
    && (l.headLen > 0 ==> first in table && table[first].frame == head)
    && (forall x :: 0 <= x < l.midCount ==>
          var p := PageAt(PageAt(first, l.HeadPages()), x); var q := PageAt(PageAt(l.page, l.HeadPages()), x);
          p in table && q in cur && table[p].frame == cur[q].frame)
    && (l.tailLen > 0 ==>
          var p := PageAt(first, l.HeadPages() + l.midCount); p in table && table[p].frame == tail)
  }

  lemma BackedInSteps(cur: Table, t1: Table, t2: Table, t3: Table, first: nat, l: Layout, head: nat, tail: nat)
    requires l.headLen > 0 ==> PageAt(PageAt(first, 0), 0) in t1 && t1[PageAt(PageAt(first, 0), 0)].frame == head
    requires MiddleMapped(cur, l)
    requires forall x :: 0 <= x < l.midCount ==>
               var p := PageAt(PageAt(first, l.HeadPages()), x);
               p in t2 && t2[p].frame == cur[PageAt(PageAt(l.page, l.HeadPages()), x)].frame
    requires var last := PageAt(PageAt(first, l.HeadPages() + l.midCount), 0);
             l.tailLen > 0 ==> last in t3 && t3[last].frame == tail
    requires forall p :: p in t1 && p < PageAt(first, l.HeadPages()) ==> p in t2 && t2[p] == t1[p]
    requires forall p :: p in t2 && p < PageAt(first, l.HeadPages() + l.midCount) ==> p in t3 && t3[p] == t2[p]
    ensures BackedBy(cur, t3, first, l, head, tail)
  {
  }

  // The region found is room for the capture.
  lemma FoundRoom(dst: Space, count: nat)
    requires dst.Valid() && count > 0
    ensures match FindFree(dst.grants.holes, dst.mmapMin, count * PAGE_SIZE)
            case Some(area) => area.size == count * PAGE_SIZE && Room(dst, area.start, count)
            case None => forall a :: !Fits(dst.grants, dst.mmapMin, count * PAGE_SIZE, a)
  {
    hide FindFree, Agree;
    FindFreeRefinesSearch(dst.grants, dst.mmapMin, count * PAGE_SIZE);
    FindFreeAligned(dst.grants, dst.mmapMin, count * PAGE_SIZE);
    var r := FindFree(dst.grants.holes, dst.mmapMin, count * PAGE_SIZE);
    if r.Some? {
      assert Region(r.value.start, count * PAGE_SIZE).Has(r.value.End() - 1);
    }
  }

  // The whole pages of a buffer are all mapped.
  ghost predicate MiddleMapped(cur: Table, l: Layout) {
    forall x :: 0 <= x < l.midCount ==> PageAt(PageAt(l.page, l.HeadPages()), x) in cur
  }

  lemma PartsInPages(addr: nat, len: nat)
    requires len > 0
    ensures var l := LayoutOf(addr, len);
            && (l.headLen > 0 ==> PageOf(addr) == l.page == PageOf(addr + l.headLen - 1))
            && (l.tailLen > 0 ==>
                  PageOf(TailAddr(addr, l)) == PageAt(l.page, l.HeadPages() + l.midCount) ==
                    PageOf(TailAddr(addr, l) + l.tailLen - 1))
  {
    hide LayoutOf, PageOf;
    var l := LayoutOf(addr, len);
    if l.headLen > 0 {
      InPage(l.page, 0, addr);
      InPage(l.page, 0, addr + l.headLen - 1);
    }
    if l.tailLen > 0 {
      InPage(l.page, l.HeadPages() + l.midCount, TailAddr(addr, l));
      InPage(l.page, l.HeadPages() + l.midCount, TailAddr(addr, l) + l.tailLen - 1);
    }
  }

  lemma BufferParts(cur: Table, addr: nat, len: nat)
    requires len > 0
    ensures var l := LayoutOf(addr, len);
            && (PartMapped(cur, addr, l.headLen) <==> Mapped(cur, addr, l.headLen))
            && (PartMapped(cur, TailAddr(addr, l), l.tailLen) <==> Mapped(cur, TailAddr(addr, l), l.tailLen))
            && (Mapped(cur, addr, len) ==>
                  MiddleMapped(cur, l) && Mapped(cur, addr, l.headLen) && Mapped(cur, TailAddr(addr, l), l.tailLen))
  {
    hide LayoutOf, PageOf, PartMapped, Aligned;
    var l := LayoutOf(addr, len);
    PartsInPages(addr, len);
    PartIsMapped(cur, addr, l.headLen);
    PartIsMapped(cur, TailAddr(addr, l), l.tailLen);
    if Mapped(cur, addr, len) {
      forall x | 0 <= x < l.midCount
        ensures PageAt(PageAt(l.page, l.HeadPages()), x) in cur
      {
        MiddlePages(cur, addr, len, x);
      }
    }
  }

  lemma NoPagesGrown(s: Space, first: nat, attrs: Attrs)
    requires s.Valid()
    ensures Grown(s, s, Region(first, 0 * PAGE_SIZE), attrs)
  {
  }

  lemma AddNone(s: Space, base: nat, m: Mapping)
    requires s.Valid() && Aligned(base)
    ensures m.frames == [] ==> AddPages(s, base, m) == Ok(s)
  {
  }

  // The three mappings, in order. Each adds its pages, if any, after those already there.
  method MapHead(dst: Space, first: nat, l: Layout, head: nat, attrs: Attrs) returns (s1: Space)
    requires Room(dst, first, l.count) && l.HeadPages() <= l.count
    ensures Grown(dst, s1, Region(first, l.HeadPages() * PAGE_SIZE), attrs)
    ensures l.headLen == 0 ==> s1 == dst
    ensures var p := PageAt(PageAt(first, 0), 0); l.headLen > 0 ==> p in s1.table && s1.table[p].frame == head
  {
    hide AttrsAt, AddPages, Space.Valid, Grown;
    var m := Mapping(if l.headLen > 0 then [head] else [], attrs);
    NoPagesGrown(dst, first, attrs);
    GrowMore(dst, dst, first, 0, l.count, m);
    AddNone(dst, PageAt(first, 0), m);
    s1 := AddPages(dst, PageAt(first, 0), m).value;
    assert l.headLen > 0 ==> PageAt(PageAt(first, 0), 0) in s1.table;
  }

  method MapMiddle(cur: Table, dst: Space, s1: Space, first: nat, l: Layout, attrs: Attrs) returns (s2: Space)
    requires Room(dst, first, l.count) && l.HeadPages() + l.midCount <= l.count && MiddleMapped(cur, l)
    requires Grown(dst, s1, Region(first, l.HeadPages() * PAGE_SIZE), attrs)
    ensures Grown(dst, s2, Region(first, (l.HeadPages() + l.midCount) * PAGE_SIZE), attrs)
    ensures l.midCount == 0 ==> s2 == s1
    ensures forall x :: 0 <= x < l.midCount ==>
              var p := PageAt(PageAt(first, l.HeadPages()), x);
              p in s2.table && s2.table[p].frame == cur[PageAt(PageAt(l.page, l.HeadPages()), x)].frame
    ensures forall p :: p in s1.table && p < PageAt(first, l.HeadPages()) ==>
              p in s2.table && s2.table[p] == s1.table[p]
  {
    hide AttrsAt, AddPages, Space.Valid, Grown, Room;
    var m := Mapping(FramesAt(cur, PageAt(l.page, l.HeadPages()), l.midCount), attrs);
    GrowMore(dst, s1, first, l.HeadPages(), l.count, m);
    AddNone(s1, PageAt(first, l.HeadPages()), m);
    s2 := AddPages(s1, PageAt(first, l.HeadPages()), m).value;
  }

  method MapTail(dst: Space, s2: Space, first: nat, l: Layout, tail: nat, attrs: Attrs) returns (s3: Space)
    requires Room(dst, first, l.count) && l.HeadPages() + l.midCount + l.TailPages() == l.count
    requires Grown(dst, s2, Region(first, (l.HeadPages() + l.midCount) * PAGE_SIZE), attrs)
    ensures Grown(dst, s3, Region(first, l.count * PAGE_SIZE), attrs)
    ensures var p := PageAt(PageAt(first, l.HeadPages() + l.midCount), 0);
            l.tailLen > 0 ==> p in s3.table && s3.table[p].frame == tail
    ensures forall p :: p in s2.table && p < PageAt(first, l.HeadPages() + l.midCount) ==>
              p in s3.table && s3.table[p] == s2.table[p]
  {
    hide AttrsAt, AddPages, Space.Valid, Grown, Room;
    var n := l.HeadPages() + l.midCount;
    var m := Mapping(if l.tailLen > 0 then [tail] else [], attrs);
    GrowMore(dst, s2, first, n, l.count, m);
    s3 := AddPages(s2, PageAt(first, n), m).value;
    assert l.tailLen > 0 ==> PageAt(PageAt(first, n), 0) in s3.table;
  }

  // What other code answers during a capture: whether the context's two kernel pages are not in use
  // already, whether the scheme's page table can take them, and how many whole pages it can take.
  datatype Answers = Answers(headPage: bool, tailPage: bool, headMap: bool, middleRoom: nat, tailMap: bool)

  datatype Failure = Fails(error: Errno, pages: nat) | Panics(pages: nat)

  // How many of `n` pages from `base` on are mapped before the first that is not.
  function MappedPages(table: Table, base: nat, n: nat): (x: nat)
    ensures x <= n && (x < n ==> PageAt(base, x) !in table)
    ensures forall y :: 0 <= y < x ==> PageAt(base, y) in table
  {
    if n == 0 then 0 else
      var x := MappedPages(table, base, n - 1);
      if x == n - 1 && PageAt(base, x) in table then n else x
  }

  // The whole pages are borrowed one by one; the kernel panics at one that is not mapped, if the scheme's
  // table has taken those before it.
  function MiddleFailure(cur: Table, l: Layout, env: Answers): Option<Failure> {
    var mapped := MappedPages(cur, PageAt(l.page, l.HeadPages()), l.midCount);
    if mapped < l.midCount && mapped <= env.middleRoom then Some(Panics(l.HeadPages()))
    else if env.middleRoom < l.midCount then Some(Fails(ENOMEM, l.HeadPages()))
    else None
  }

  method CaptureMiddle(cur: Table, dst: Space, s1: Space, first: nat, l: Layout, attrs: Attrs, env: Answers)
    returns (failure: Option<Failure>, s2: Space)
    requires Room(dst, first, l.count) && l.HeadPages() + l.midCount <= l.count
    requires Grown(dst, s1, Region(first, l.HeadPages() * PAGE_SIZE), attrs)
    ensures failure == MiddleFailure(cur, l, env) && (failure.Some? ==> s2 == s1)
    ensures failure.None? ==>
              && MiddleMapped(cur, l)
              && Grown(dst, s2, Region(first, (l.HeadPages() + l.midCount) * PAGE_SIZE), attrs)
              && (l.midCount == 0 ==> s2 == s1)
              && (forall x :: 0 <= x < l.midCount ==>
                    var p := PageAt(PageAt(first, l.HeadPages()), x);
                    p in s2.table && s2.table[p].frame == cur[PageAt(PageAt(l.page, l.HeadPages()), x)].frame)
              && (forall p :: p in s1.table && p < PageAt(first, l.HeadPages()) ==>
                    p in s2.table && s2.table[p] == s1.table[p])
  {
    hide Grown, Room, MappedPages;
    failure, s2 := MiddleFailure(cur, l, env), s1;
    if failure.None? {
      s2 := MapMiddle(cur, dst, s1, first, l, attrs);
    }
  }

  lemma MiddlePagesLeft(cur: Table, l: Layout, env: Answers)
    ensures var failure := MiddleFailure(cur, l, env); failure.Some? ==> failure.value.pages == l.HeadPages()
  {
  }

  // Why a capture fails once there is room, if it does, and how many pages it has mapped by then.
  function FailureOf(mode: Mode, cur: Table, addr: nat, l: Layout, env: Answers): Option<Failure> {
    var before := l.HeadPages() + l.midCount;
    if l.headLen > 0 && !env.headPage then Some(Fails(EAGAIN, 0))
    else if mode == Ro && !PartMapped(cur, addr, l.headLen) then Some(Fails(EFAULT, 0))
    else if l.headLen > 0 && !env.headMap then Some(Fails(ENOMEM, 0))
    else if MiddleFailure(cur, l, env).Some? then MiddleFailure(cur, l, env)
    else
      var error := TailFailure(mode, cur, addr, l, env);
      if error.Some? then Some(Fails(error.value, before)) else None
  }

  // Pages mapped over free ones are seen.
  lemma GrownDiffers(s: Space, t: Space, first: nat, n: nat, total: nat, attrs: Attrs)
    requires Room(s, first, total) && Grown(s, t, Region(first, n * PAGE_SIZE), attrs) && n <= total
    ensures n > 0 ==> t != s
  {
    if n > 0 {
      assert Region(first, n * PAGE_SIZE).Has(first) && Region(first, total * PAGE_SIZE).Has(first);
      assert AttrsAt(t.grants.inner, first).Some?;
    }
  }

  function TailFailure(mode: Mode, cur: Table, addr: nat, l: Layout, env: Answers): Option<Errno> {
    if l.tailLen > 0 && !env.tailPage then Some(EAGAIN)
    else if mode == Ro && !PartMapped(cur, TailAddr(addr, l), l.tailLen) then Some(EFAULT)
    else if l.tailLen > 0 && !env.tailMap then Some(ENOMEM)
    else None
  }

  // The last part of a capture: fill the kernel's tail page and map it.
  method CaptureTail(
    mode: Mode, cur: Table, dst: Space, s2: Space, mem: Memory, addr: nat, l: Layout, first: nat, tail: nat,
      env: Answers
  ) returns (error: Option<Errno>, s3: Space, after: Memory)
    requires Room(dst, first, l.count) && l.HeadPages() + l.midCount + l.TailPages() == l.count
    requires l.tailLen <= PAGE_SIZE
    requires Grown(dst, s2, Region(first, (l.HeadPages() + l.midCount) * PAGE_SIZE), CaptureAttrs(mode))
    requires PartMapped(cur, TailAddr(addr, l), l.tailLen) ==> Mapped(cur, TailAddr(addr, l), l.tailLen)
    ensures error == TailFailure(mode, cur, addr, l, env) && (error.Some? ==> s3 == s2)
    ensures error.None? ==>
              && Grown(dst, s3, Region(first, l.count * PAGE_SIZE), CaptureAttrs(mode))
              && (forall p :: p in s2.table && p < PageAt(first, l.HeadPages() + l.midCount) ==>
                    p in s3.table && s3.table[p] == s2.table[p])
              && (mode == Ro ==> Mapped(cur, TailAddr(addr, l), l.tailLen))
              && var p := PageAt(PageAt(first, l.HeadPages() + l.midCount), 0);
                 (l.tailLen > 0 ==> p in s3.table && s3.table[p].frame == tail)
    ensures error.None? ==>
              after == if l.tailLen > 0
                then FillFrame(mem, tail, TailBytes(mode, mem, cur, TailAddr(addr, l), l.tailLen)) else mem
  {
    hide Mapped, PageOf, Space.Valid, Grown, Room, FillFrame, TailBytes;
    error, s3, after := None, s2, mem;
    if l.tailLen > 0 {
      if !env.tailPage {
        return Some(EAGAIN), s2, mem;
      }
      if mode == Ro && !PartMapped(cur, TailAddr(addr, l), l.tailLen) {
        return Some(EFAULT), s2, mem;
      }
      after := FillFrame(mem, tail, TailBytes(mode, mem, cur, TailAddr(addr, l), l.tailLen));
      if !env.tailMap {
        return Some(ENOMEM), s2, mem;
      }
    }
    s3 := MapTail(dst, s2, first, l, tail, CaptureAttrs(mode));
  }

  // Pages that a capture has added can be written by the scheme iff the buffer is for writing, never be
  // executed, and belong to a grant that owns nothing and has no file.
  ghost predicate NewPagesFor(mode: Mode, dst: Space, space: Space) {
    forall p: nat :: p in space.table && p !in dst.table ==>
      && space.table[p].flags.user && (space.table[p].flags.write <==> mode == Wo) && !space.table[p].flags.execute
      && AttrsAt(space.grants.inner, p).Some?
      && var a := AttrsAt(space.grants.inner, p).value; !a.owned && !a.allocatorOwned && a.desc.None?
  }

  lemma NoNewPages(mode: Mode, s: Space)
    ensures NewPagesFor(mode, s, s)
  {
  }

  lemma GrownFor(mode: Mode, dst: Space, space: Space, area: Region)
    requires Grown(dst, space, area, CaptureAttrs(mode))
    ensures NewPagesFor(mode, dst, space)
  {
    hide AttrsAt, UserGrants.Valid;
  }

  lemma CaptureMade(
    mode: Mode, cur: Table, dst: Space, mem: Memory, addr: nat, len: nat, head: nat, tail: nat, first: nat, c: Captured
  )
    requires len > 0 && c.base == first + LayoutOf(addr, len).offset
    requires var l := LayoutOf(addr, len);
             && Room(dst, first, l.count)
             && FindFree(dst.grants.holes, dst.mmapMin, l.count * PAGE_SIZE) == Some(Region(first, l.count * PAGE_SIZE))
             && Grown(dst, c.space, Region(first, l.count * PAGE_SIZE), CaptureAttrs(mode))
             && BackedBy(cur, c.space.table, first, l, head, tail)
             && KernelPages(mode, cur, mem, addr, l, head, tail, c.mem)
    ensures IsCapture(mode, cur, dst, mem, addr, len, head, tail, c)
  {
    hide LayoutOf, Room, FindFree, Grown, BackedBy, KernelPages;
  }

  // Find room in the scheme's space for all pages the buffer touches and map them there: the ends as
  // kernel pages `head` and `tail`, filled with the buffer's bytes, the rest as the client's own pages.
  // Pages mapped before a failure stay mapped, so the space is as it was iff there were none. Without a
  // result the kernel has panicked, with the head page mapped.
  method CaptureInner(
    mode: Mode, cur: Table, dst: Space, mem: Memory, addr: nat, len: nat, head: nat, tail: nat, env: Answers
  ) returns (r: Option<Result<Captured>>, space: Space)
    requires len > 0 && dst.Valid() && Private(cur, head, tail)
    ensures r.Some? && r.value.Ok? ==>
              && IsCapture(mode, cur, dst, mem, addr, len, head, tail, r.value.value)
              && space == r.value.value.space
    ensures NewPagesFor(mode, dst, space)
    ensures var l := LayoutOf(addr, len);
            match FindFree(dst.grants.holes, dst.mmapMin, l.count * PAGE_SIZE)
            case None =>
              && r == Some(Err(ENOMEM)) && space == dst
              && forall a :: !Fits(dst.grants, dst.mmapMin, l.count * PAGE_SIZE, a)
            case Some(area) =>
              var failure := FailureOf(mode, cur, addr, l, env);
              if failure.None? then r.Some? && r.value.Ok?
              else
                && r == (if failure.value.Panics? then None else Some(Err(failure.value.error)))
                && (space == dst <==> failure.value.pages == 0)
                && Grown(dst, space, Region(area.start, failure.value.pages * PAGE_SIZE), CaptureAttrs(mode))
  {
    hide LayoutOf, FindFree, Mapped, MiddleMapped, PageOf, Space.Valid, Grown, Room, HeadBytes, TailBytes, TailFailure,
      MiddleFailure, NewPagesFor, KernelPages, BackedBy, Private, Fits, Aligned, IsCapture, FillFrame;
    NoNewPages(mode, dst);
    space := dst;
    var l := LayoutOf(addr, len);
    var free := FindFree(dst.grants.holes, dst.mmapMin, l.count * PAGE_SIZE);
    FoundRoom(dst, l.count);
    if free.None? {
      return Some(Err(ENOMEM)), dst;
    }
    var first := free.value.start;
    var attrs := CaptureAttrs(mode);
    BufferParts(cur, addr, len);
    NoPagesGrown(dst, first, attrs);
    var mem1, mem2 := mem, mem;
    if l.headLen > 0 {
      if !env.headPage {
        return Some(Err(EAGAIN)), dst;
      }
      if mode == Ro && !PartMapped(cur, addr, l.headLen) {
        return Some(Err(EFAULT)), dst;
      }
      mem1 := FillFrame(mem, head, HeadBytes(mode, mem, cur, addr, l));
      if !env.headMap {
        return Some(Err(ENOMEM)), dst;
      }
    }
    var s1 := MapHead(dst, first, l, head, attrs);
    GrownDiffers(dst, s1, first, l.HeadPages(), l.count, attrs);
    GrownFor(mode, dst, s1, Region(first, l.HeadPages() * PAGE_SIZE));
    var failure, s2 := CaptureMiddle(cur, dst, s1, first, l, attrs, env);
    if failure.Some? {
      MiddlePagesLeft(cur, l, env);
      return if failure.value.Panics? then None else Some(Err(failure.value.error)), s1;
    }
    GrownDiffers(dst, s2, first, l.HeadPages() + l.midCount, l.count, attrs);
    GrownFor(mode, dst, s2, Region(first, (l.HeadPages() + l.midCount) * PAGE_SIZE));
    var error;
    error, space, mem2 := CaptureTail(mode, cur, dst, s2, mem1, addr, l, first, tail, env);
    if error.Some? {
      return Some(Err(error.value)), space;
    }
    GrownFor(mode, dst, space, Region(first, l.count * PAGE_SIZE));
    BackedInSteps(cur, s1.table, s2.table, space.table, first, l, head, tail);
    FilledPages(mode, cur, mem, addr, l, head, tail, mem1, mem2);
    var c := Captured(space, mem2, first + l.offset);
    CaptureMade(mode, cur, dst, mem, addr, len, head, tail, first, c);
    r := Some(Ok(c));
  }

  /// What the scheme sees

  // Two addresses of two spaces that hold the same byte.
  ghost predicate SameByte(mem1: Memory, t1: Table, v1: nat, mem2: Memory, t2: Table, v2: nat) {
    PageOf(v1) in t1 && PageOf(v2) in t2 && Read(mem1, t1, v1) == Read(mem2, t2, v2)
  }

  ghost predicate IsAt(table: Table, v: nat, a: int) {
    PageOf(v) in table && Phys(table, v) == a
  }

  // The shape of a layout, without the arithmetic that found it.
  ghost predicate Shape(addr: nat, len: nat, l: Layout) {
    && Aligned(l.page) && l.page + l.offset == addr && l.offset < PAGE_SIZE
    && l.headLen + l.midCount * PAGE_SIZE + l.tailLen == len && l.tailLen < PAGE_SIZE
    && l.count == l.HeadPages() + l.midCount + l.TailPages()
    && (l.headLen > 0 <==> l.offset > 0) && l.offset + l.headLen <= PAGE_SIZE
    && (l.midCount > 0 || l.tailLen > 0 ==> addr + l.headLen == PageAt(l.page, l.HeadPages()))
  }

  lemma InPage(base: nat, n: nat, v: nat)
    requires Aligned(base) && PageAt(base, n) <= v < PageAt(base, n) + PAGE_SIZE
    ensures PageOf(v) == PageAt(base, n)
  {
  }

  // Buffer byte i is at base + i: in the head page, in the client's own page, or in the tail page.
  lemma HeadByteAt(cur: Table, t: Table, first: nat, addr: nat, len: nat, l: Layout, head: nat, tail: nat, i: nat)
    requires Shape(addr, len, l) && Aligned(first) && BackedBy(cur, t, first, l, head, tail) && i < l.headLen
    ensures IsAt(t, first + l.offset + i, head * PAGE_SIZE + (l.offset + i))
  {
  }

  lemma MiddleByteAt(cur: Table, t: Table, first: nat, addr: nat, len: nat, l: Layout, head: nat, tail: nat, i: nat)
    requires Shape(addr, len, l) && Aligned(first) && BackedBy(cur, t, first, l, head, tail)
    requires l.headLen <= i < l.headLen + l.midCount * PAGE_SIZE
    ensures PageOf(addr + i) in cur && IsAt(t, first + l.offset + i, Phys(cur, addr + i))
  {
    var x := (i - l.headLen) / PAGE_SIZE;
    InPage(PageAt(first, l.HeadPages()), x, first + l.offset + i);
    InPage(PageAt(l.page, l.HeadPages()), x, addr + i);
    hide PageOf, Aligned;
  }

  lemma TailByteAt(cur: Table, t: Table, first: nat, addr: nat, len: nat, l: Layout, head: nat, tail: nat, i: nat)
    requires Shape(addr, len, l) && Aligned(first) && BackedBy(cur, t, first, l, head, tail)
    requires l.headLen + l.midCount * PAGE_SIZE <= i < len
    ensures IsAt(t, first + l.offset + i, tail * PAGE_SIZE + (i - l.headLen - l.midCount * PAGE_SIZE))
  {
  }

  // A client byte is in neither kernel page.
  lemma ClientByte(cur: Table, head: nat, tail: nat, v: nat)
    requires Private(cur, head, tail) && PageOf(v) in cur
    ensures !InFrame(head, Phys(cur, v)) && !InFrame(tail, Phys(cur, v))
  {
  }

  lemma CaptureShape(
    mode: Mode, cur: Table, dst: Space, mem: Memory, addr: nat, len: nat, head: nat, tail: nat, c: Captured
  )
    requires len > 0 && IsCapture(mode, cur, dst, mem, addr, len, head, tail, c)
    ensures var l := LayoutOf(addr, len); var first := c.base - l.offset;
            && first >= 0 && Aligned(first) && Shape(addr, len, l) && BackedBy(cur, c.space.table, first, l, head, tail)
            && KernelPages(mode, cur, mem, addr, l, head, tail, c.mem)
  {
    hide LayoutOf, Grown, FindFree, BackedBy, KernelPages, Mapped, Space.Valid, IsFree, Aligned;
  }

  lemma MappedAt(cur: Table, addr: nat, len: nat, v: nat)
    requires Mapped(cur, addr, len) && addr <= v < addr + len
    ensures PageOf(v) in cur
  {
  }

  lemma HeadReads(
    cur: Table, t: Table, mem: Memory, after: Memory, addr: nat, l: Layout, head: nat, tail: nat, v: nat, i: nat
  )
    requires KernelPages(Ro, cur, mem, addr, l, head, tail, after) && i < l.headLen
    requires IsAt(t, v, head * PAGE_SIZE + (l.offset + i))
    ensures SameByte(after, t, v, mem, cur, addr + i)
  {
    hide PageOf, Mapped;
    MappedAt(cur, addr, l.headLen, addr + i);
    assert after(head * PAGE_SIZE + (l.offset + i)) == HeadBytes(Ro, mem, cur, addr, l)[l.offset + i];
  }

  lemma TailReads(
    cur: Table, t: Table, mem: Memory, after: Memory, addr: nat, l: Layout, head: nat, tail: nat, v: nat, o: nat
  )
    requires KernelPages(Ro, cur, mem, addr, l, head, tail, after) && o < l.tailLen && IsAt(t, v, tail * PAGE_SIZE + o)
    ensures SameByte(after, t, v, mem, cur, TailAddr(addr, l) + o)
  {
    hide PageOf, Mapped;
    MappedAt(cur, TailAddr(addr, l), l.tailLen, TailAddr(addr, l) + o);
    assert after(tail * PAGE_SIZE + o) == TailBytes(Ro, mem, cur, TailAddr(addr, l), l.tailLen)[o];
  }

  lemma MiddleReads(
    cur: Table, t: Table, mem: Memory, after: Memory, addr: nat, l: Layout, head: nat, tail: nat, v: nat, i: nat
  )
    requires KernelPages(Ro, cur, mem, addr, l, head, tail, after) && Private(cur, head, tail)
    requires PageOf(addr + i) in cur && IsAt(t, v, Phys(cur, addr + i))
    ensures SameByte(after, t, v, mem, cur, addr + i)
  {
  }

  // A captured read buffer reads, byte for byte, as it does in the client.
  lemma SchemeReadsBuffer(
    cur: Table, dst: Space, mem: Memory, addr: nat, len: nat, head: nat, tail: nat, c: Captured, i: nat
  )
    requires len > 0 && i < len && Private(cur, head, tail)
    requires IsCapture(Ro, cur, dst, mem, addr, len, head, tail, c)
    ensures SameByte(c.mem, c.space.table, c.base + i, mem, cur, addr + i)
  {
    hide IsCapture, LayoutOf, PageOf, BackedBy, Mapped, KernelPages, SameByte, IsAt, Private;
    CaptureShape(Ro, cur, dst, mem, addr, len, head, tail, c);
    var l := LayoutOf(addr, len);
    var first := c.base - l.offset;
    var t := c.space.table;
    if i < l.headLen {
      HeadByteAt(cur, t, first, addr, len, l, head, tail, i);
      HeadReads(cur, t, mem, c.mem, addr, l, head, tail, c.base + i, i);
    } else if i < l.headLen + l.midCount * PAGE_SIZE {
      MiddleByteAt(cur, t, first, addr, len, l, head, tail, i);
      MiddleReads(cur, t, mem, c.mem, addr, l, head, tail, c.base + i, i);
    } else {
      TailByteAt(cur, t, first, addr, len, l, head, tail, i);
      TailReads(cur, t, mem, c.mem, addr, l, head, tail, c.base + i, i - l.headLen - l.midCount * PAGE_SIZE);
    }
  }

  lemma HeadPadding(
    mode: Mode, cur: Table, mem: Memory, after: Memory, addr: nat, l: Layout, head: nat, tail: nat, o: nat
  )
    requires KernelPages(mode, cur, mem, addr, l, head, tail, after) && l.headLen > 0 && o < PAGE_SIZE
    requires !(l.offset <= o < l.offset + l.headLen)
    ensures after(head * PAGE_SIZE + o) == 0
  {
    hide Mapped, UserBytes;
    assert after(head * PAGE_SIZE + o) == HeadBytes(mode, mem, cur, addr, l)[o];
  }

  lemma TailPadding(
    mode: Mode, cur: Table, mem: Memory, after: Memory, addr: nat, l: Layout, head: nat, tail: nat, o: nat
  )
    requires KernelPages(mode, cur, mem, addr, l, head, tail, after) && l.tailLen > 0 && l.tailLen <= o < PAGE_SIZE
    ensures after(tail * PAGE_SIZE + o) == 0
  {
    hide Mapped, UserBytes;
    assert after(tail * PAGE_SIZE + o) == TailBytes(mode, mem, cur, TailAddr(addr, l), l.tailLen)[o];
  }

  // Nothing else of the client shows: the rest of the captured pages is zero.
  lemma SchemeSeesNoMore(
    mode: Mode, cur: Table, dst: Space, mem: Memory, addr: nat, len: nat, head: nat, tail: nat, c: Captured, v: nat
  ) returns (a: nat)
    requires len > 0 && IsCapture(mode, cur, dst, mem, addr, len, head, tail, c)
    requires var l := LayoutOf(addr, len);
             c.base - l.offset <= v < c.base - l.offset + l.count * PAGE_SIZE && !(c.base <= v < c.base + len)
    ensures IsAt(c.space.table, v, a) && c.mem(a) == 0
  {
    hide IsCapture, LayoutOf, Mapped, KernelPages, PageOf;
    CaptureShape(mode, cur, dst, mem, addr, len, head, tail, c);
    var l := LayoutOf(addr, len);
    var first := c.base - l.offset;
    if v < first + PAGE_SIZE && l.headLen > 0 {
      InPage(first, 0, v);
      a := head * PAGE_SIZE + (v - first);
      HeadPadding(mode, cur, mem, c.mem, addr, l, head, tail, v - first);
    } else {
      var n := l.HeadPages() + l.midCount;
      InPage(first, n, v);
      a := tail * PAGE_SIZE + (v - PageAt(first, n));
      TailPadding(mode, cur, mem, c.mem, addr, l, head, tail, v - PageAt(first, n));
    }
  }

  // The parts of a write buffer that lie in kernel pages show nothing, neither of the client nor of what
  // those pages held before.
  lemma WriteBufferShowsNothing(
    cur: Table, dst: Space, mem: Memory, addr: nat, len: nat, head: nat, tail: nat, c: Captured, i: nat
  ) returns (a: nat)
    requires len > 0 && i < len && IsCapture(Wo, cur, dst, mem, addr, len, head, tail, c)
    requires var l := LayoutOf(addr, len); i < l.headLen || l.headLen + l.midCount * PAGE_SIZE <= i
    ensures IsAt(c.space.table, c.base + i, a) && c.mem(a) == 0
  {
    hide IsCapture, LayoutOf, PageOf, BackedBy, Mapped, IsAt;
    CaptureShape(Wo, cur, dst, mem, addr, len, head, tail, c);
    var l := LayoutOf(addr, len);
    var first := c.base - l.offset;
    if i < l.headLen {
      HeadByteAt(cur, c.space.table, first, addr, len, l, head, tail, i);
      a := head * PAGE_SIZE + (l.offset + i);
      assert c.mem(a) == HeadBytes(Wo, mem, cur, addr, l)[l.offset + i];
    } else {
      TailByteAt(cur, c.space.table, first, addr, len, l, head, tail, i);
      var o := i - l.headLen - l.midCount * PAGE_SIZE;
      a := tail * PAGE_SIZE + o;
      assert c.mem(a) == TailBytes(Wo, mem, cur, TailAddr(addr, l), l.tailLen)[o];
    }
  }

  /// release_inner

  // Copy bytes to user memory.
  function WriteUser(mem: Memory, table: Table, addr: nat, bytes: seq<int>): Memory
    requires Mapped(table, addr, |bytes|)
    decreases |bytes|
  {
    if bytes == [] then mem else
      var n := |bytes| - 1;
      var before := WriteUser(mem, table, addr, bytes[..n]);
      (a: nat) => if a == Phys(table, addr + n) then bytes[n] else before(a)
  }

  // Bytes of one page land where they belong, and nothing else changes.
  lemma {:induction false} WriteUserExact(mem: Memory, table: Table, addr: nat, bytes: seq<int>, page: nat, a: nat)
    requires Mapped(table, addr, |bytes|) && Aligned(page) && page <= addr && addr + |bytes| <= page + PAGE_SIZE
    requires page in table
    ensures var at := table[page].frame * PAGE_SIZE + (addr - page);
            WriteUser(mem, table, addr, bytes)(a) == if at <= a < at + |bytes| then bytes[a - at] else mem(a)
    decreases |bytes|
  {
    hide PageOf, Aligned, Phys;
    if bytes != [] {
      var n := |bytes| - 1;
      WriteUserExact(mem, table, addr, bytes[..n], page, a);
      PhysInPage(table, page, addr + n);
      assert WriteUser(mem, table, addr, bytes)(a) ==
             if a == Phys(table, addr + n) then bytes[n] else WriteUser(mem, table, addr, bytes[..n])(a);
    }
  }

  lemma PhysInPage(table: Table, page: nat, v: nat)
    requires Aligned(page) && page <= v < page + PAGE_SIZE && page in table
    ensures PageOf(v) in table && Phys(table, v) == table[page].frame * PAGE_SIZE + (v - page)
  {
    hide PageOf;
    InPage(page, 0, v);
  }

  function BytesOf(mem: Memory, a: nat, n: nat): (r: seq<int>)
    ensures |r| == n && forall i :: 0 <= i < n ==> r[i] == mem(a + i)
  {
    seq(n, i requires 0 <= i => mem(a + i))
  }

  // Memory after the head, and after both ends, were copied back.
  function HeadCopied(cur: Table, mem: Memory, addr: nat, l: Layout, head: nat): Memory
    requires Mapped(cur, addr, l.headLen)
  {
    WriteUser(mem, cur, addr, BytesOf(mem, head * PAGE_SIZE + l.offset, l.headLen))
  }

  function CopiedBack(cur: Table, mem: Memory, addr: nat, l: Layout, head: nat, tail: nat): Memory
    requires Mapped(cur, addr, l.headLen) && Mapped(cur, TailAddr(addr, l), l.tailLen)
  {
    var mem1 := HeadCopied(cur, mem, addr, l, head);
    WriteUser(mem1, cur, TailAddr(addr, l), BytesOf(mem1, tail * PAGE_SIZE, l.tailLen))
  }

  // Copy the written ends back to the client, then unmap. `now` is the scheme's space by then, `cur` the
  // client's table and `mem` memory as the scheme left it. The first end that faults ends the copying,
  // but nothing keeps the pages from being unmapped.
  method ReleaseInner(
    mode: Mode, cur: Table, now: Space, mem: Memory, addr: nat, len: nat, head: nat, tail: nat, base: nat
  ) returns (r: Result<()>, space: Space, after: Memory)
    requires len > 0 && now.Valid() && base % PAGE_SIZE == LayoutOf(addr, len).offset
    ensures space == Munmap(now, PageOf(base) / PAGE_SIZE, LayoutOf(addr, len).count).0
    ensures var l := LayoutOf(addr, len);
            if mode == Ro then r == Ok(()) && after == mem
            else if !Mapped(cur, addr, l.headLen) then r == Err(EFAULT) && after == mem
            else if !Mapped(cur, TailAddr(addr, l), l.tailLen) then
              r == Err(EFAULT) && after == HeadCopied(cur, mem, addr, l, head)
            else r == Ok(()) && after == CopiedBack(cur, mem, addr, l, head, tail)
  {
    hide WriteUser, LayoutOf, Mapped, PartMapped, Munmap, Space.Valid;
    var l := LayoutOf(addr, len);
    BufferParts(cur, addr, len);
    r, after := Ok(()), mem;
    if mode == Wo {
      if PartMapped(cur, addr, l.headLen) {
        after := WriteUser(after, cur, addr, BytesOf(after, head * PAGE_SIZE + base % PAGE_SIZE, l.headLen));
      } else {
        r := Err(EFAULT);
      }
      if r.Ok? {
        if PartMapped(cur, TailAddr(addr, l), l.tailLen) {
          after := WriteUser(after, cur, TailAddr(addr, l), BytesOf(after, tail * PAGE_SIZE, l.tailLen));
        } else {
          r := Err(EFAULT);
        }
      }
    }
    var (page, count, _) := PageRangeContaining(base, len);
    assert count == l.count by { SamePageCount(addr, base, len); }
    space := Munmap(now, page / PAGE_SIZE, count).0;
  }

  lemma SamePageCount(addr: nat, base: nat, len: nat)
    requires len > 0 && base % PAGE_SIZE == LayoutOf(addr, len).offset
    ensures PageRangeContaining(base, len).1 == LayoutOf(addr, len).count
  {
  }

  // Releasing gives back exactly the captured pages: what else the scheme has mapped, `rest`, is
  // there byte for byte, with the same free intervals and the same page table.
  lemma ReleaseRestores(rest: Space, now: Space, first: nat, count: nat, attrs: Attrs)
    requires Room(rest, first * PAGE_SIZE, count)
    requires Grown(rest, now, Region(first * PAGE_SIZE, count * PAGE_SIZE), attrs)
    ensures var space := Munmap(now, first, count).0;
            && space.Valid() && space.grants.holes == rest.grants.holes && space.table == rest.table
            && (forall b :: AttrsAt(space.grants.inner, b) == AttrsAt(rest.grants.inner, b))
  {
    hide AttrsAt, Munmap, Space.Valid, Room, Aligned, UserGrants.Valid;
    RoomEmpty(rest, first, count);
    var space := Munmap(now, first, count).0;
    MunmapExact(now, first, count);
    assert space.table == rest.table;
    assert forall b :: AttrsAt(space.grants.inner, b) == AttrsAt(rest.grants.inner, b);
    hide Grown;
    ValidParts(space);
    SameHolesByAttrs(space.grants, rest.grants);
  }

  // A capture that is released leaves the scheme's space as it found it.
  lemma CaptureThenRelease(
    mode: Mode, cur: Table, dst: Space, mem: Memory, addr: nat, len: nat, head: nat, tail: nat, c: Captured
  )
    requires len > 0 && IsCapture(mode, cur, dst, mem, addr, len, head, tail, c)
    ensures c.space.Valid() && c.base % PAGE_SIZE == LayoutOf(addr, len).offset
    ensures var space := Munmap(c.space, PageOf(c.base) / PAGE_SIZE, LayoutOf(addr, len).count).0;
            && space.Valid() && space.grants.holes == dst.grants.holes && space.table == dst.table
            && (forall b :: AttrsAt(space.grants.inner, b) == AttrsAt(dst.grants.inner, b))
  {
    hide FindFree, BackedBy, KernelPages, Mapped, Munmap, AttrsAt, Space.Valid, UserGrants.Valid, IsFree;
    var l := LayoutOf(addr, len);
    var first := c.base - l.offset;
    assert Aligned(first) && PageOf(c.base) == first && first / PAGE_SIZE * PAGE_SIZE == first;
    ReleaseRestores(dst, c.space, first / PAGE_SIZE, l.count, CaptureAttrs(mode));
  }

  lemma RoomEmpty(s: Space, first: nat, count: nat)
    requires Room(s, first * PAGE_SIZE, count)
    ensures s.grants.Valid()
    ensures forall b :: Region(first * PAGE_SIZE, count * PAGE_SIZE).Has(b) ==>
              AttrsAt(s.grants.inner, b).None? && b !in s.table
  {
  }

  /// What the client gets

  // Where the scheme sees byte `i` of a captured buffer.
  function Cell(cur: Table, addr: nat, l: Layout, head: nat, tail: nat, i: nat): nat
    requires PageOf(addr + i) in cur
  {
    if i < l.headLen then head * PAGE_SIZE + (l.offset + i)
    else if i < l.headLen + l.midCount * PAGE_SIZE then Phys(cur, addr + i)
    else tail * PAGE_SIZE + (i - l.headLen - l.midCount * PAGE_SIZE)
  }

  // Physical address `a` is one of `n` bytes from offset `o` of a page of the client.
  predicate InPart(cur: Table, page: nat, o: nat, n: nat, a: nat) {
    n > 0 && page in cur && cur[page].frame * PAGE_SIZE + o <= a < cur[page].frame * PAGE_SIZE + o + n
  }

  function LastPage(l: Layout): nat {
    PageAt(l.page, l.HeadPages() + l.midCount)
  }

  // Where the copies take the byte at physical address `a` from: a kernel page, or nowhere else.
  function CopiedFrom(cur: Table, l: Layout, head: nat, tail: nat, a: nat): nat {
    if InPart(cur, LastPage(l), 0, l.tailLen, a) then tail * PAGE_SIZE + (a - cur[LastPage(l)].frame * PAGE_SIZE)
    else if InPart(cur, l.page, l.offset, l.headLen, a) then head * PAGE_SIZE + (a - cur[l.page].frame * PAGE_SIZE)
    else a
  }

  ghost predicate EndsMapped(cur: Table, addr: nat, len: nat, l: Layout) {
    && Shape(addr, len, l) && Mapped(cur, addr, l.headLen) && Mapped(cur, TailAddr(addr, l), l.tailLen)
    && (l.headLen > 0 ==> l.page in cur) && (l.tailLen > 0 ==> LastPage(l) in cur)
  }

  lemma CopiedBackAt(
    cur: Table, mem: Memory, addr: nat, len: nat, l: Layout, head: nat, tail: nat, a: nat
  )
    requires EndsMapped(cur, addr, len, l) && Private(cur, head, tail)
    ensures CopiedBack(cur, mem, addr, l, head, tail)(a) == mem(CopiedFrom(cur, l, head, tail, a))
  {
    hide PageOf, Mapped, WriteUser, HeadCopied, Private, InPart, InFrame;
    var mem1 := HeadCopied(cur, mem, addr, l, head);
    HeadCopiedAt(cur, mem, addr, len, l, head, a);
    PartCopied(cur, mem1, TailAddr(addr, l), l.tailLen, LastPage(l), tail * PAGE_SIZE, a);
    if InPart(cur, LastPage(l), 0, l.tailLen, a) {
      OffsetInPart(cur, LastPage(l), l.tailLen, tail, a);
      var from := tail * PAGE_SIZE + (a - cur[LastPage(l)].frame * PAGE_SIZE);
      HeadCopiedAt(cur, mem, addr, len, l, head, from);
      KernelApart(cur, l, head, tail, from);
    }
  }

  lemma HeadCopiedAt(cur: Table, mem: Memory, addr: nat, len: nat, l: Layout, head: nat, a: nat)
    requires EndsMapped(cur, addr, len, l)
    ensures HeadCopied(cur, mem, addr, l, head)(a) ==
            if InPart(cur, l.page, l.offset, l.headLen, a)
              then mem(head * PAGE_SIZE + (a - cur[l.page].frame * PAGE_SIZE)) else mem(a)
  {
    hide PageOf, Mapped, WriteUser;
    PartCopied(cur, mem, addr, l.headLen, l.page, head * PAGE_SIZE + l.offset, a);
  }

  lemma OffsetInPart(cur: Table, page: nat, n: nat, frame: nat, a: nat)
    requires InPart(cur, page, 0, n, a) && n <= PAGE_SIZE
    ensures page in cur && 0 <= a - cur[page].frame * PAGE_SIZE < n
    ensures InFrame(frame, frame * PAGE_SIZE + (a - cur[page].frame * PAGE_SIZE))
  {
  }

  // The kernel's tail page is no part of the client's head.
  lemma KernelApart(cur: Table, l: Layout, head: nat, tail: nat, a: nat)
    requires Private(cur, head, tail) && InFrame(tail, a) && l.offset + l.headLen <= PAGE_SIZE
    ensures !InPart(cur, l.page, l.offset, l.headLen, a)
  {
  }

  lemma PartCopied(cur: Table, mem: Memory, addr: nat, n: nat, page: nat, from: nat, a: nat)
    requires Mapped(cur, addr, n)
    requires n > 0 ==> Aligned(page) && page <= addr && addr + n <= page + PAGE_SIZE && page in cur
    ensures WriteUser(mem, cur, addr, BytesOf(mem, from, n))(a) ==
            if n > 0 && InPart(cur, page, addr - page, n, a)
            then mem(from + (a - cur[page].frame * PAGE_SIZE - (addr - page))) else mem(a)
  {
    if n > 0 {
      WriteUserExact(mem, cur, addr, BytesOf(mem, from, n), page, a);
    }
  }

  // Two bytes of the buffer are one byte of memory.
  predicate Shares(cur: Table, addr: nat, i: nat, j: nat) {
    PageOf(addr + i) in cur && PageOf(addr + j) in cur && Phys(cur, addr + i) == Phys(cur, addr + j)
  }

  predicate InHead(l: Layout, i: nat) {
    i < l.headLen
  }

  predicate InTail(l: Layout, i: nat) {
    l.headLen + l.midCount * PAGE_SIZE <= i
  }

  // No byte of the two ends is also another byte of the buffer.
  ghost predicate EndsApart(cur: Table, addr: nat, len: nat)
    requires len > 0
  {
    var l := LayoutOf(addr, len);
    forall i: nat, j: nat ::
      i < len && j < len && i != j && (InHead(l, i) || InTail(l, i)) ==> !Shares(cur, addr, i, j)
  }

  // End bytes lie in one page, one after the other.
  lemma HeadPhys(cur: Table, addr: nat, len: nat, l: Layout, i: nat)
    requires EndsMapped(cur, addr, len, l) && InHead(l, i)
    ensures PageOf(addr + i) in cur && Phys(cur, addr + i) == cur[l.page].frame * PAGE_SIZE + (l.offset + i)
  {
    hide PageOf, Mapped;
    InPage(l.page, 0, addr + i);
  }

  lemma TailPhys(cur: Table, addr: nat, len: nat, l: Layout, i: nat)
    requires EndsMapped(cur, addr, len, l) && InTail(l, i) && i < len
    ensures PageOf(addr + i) in cur
    ensures Phys(cur, addr + i) == cur[LastPage(l)].frame * PAGE_SIZE + (i - l.headLen - l.midCount * PAGE_SIZE)
  {
    hide PageOf, Mapped;
    InPage(l.page, l.HeadPages() + l.midCount, addr + i);
  }

  // The copy of end byte `j` overwrites what byte `i` should keep.
  predicate Spoils(l: Layout, i: nat, j: nat) {
    (InTail(l, j) && !InTail(l, i)) || (InHead(l, j) && !InHead(l, i) && !InTail(l, i))
  }

  ghost predicate Unspoiled(cur: Table, addr: nat, len: nat, l: Layout, i: nat) {
    forall j: nat :: j < len && Spoils(l, i, j) ==> !Shares(cur, addr, i, j)
  }

  // Byte `i` is copied from where the scheme saw it iff no spoiling byte is the same memory.
  lemma RightSource(cur: Table, addr: nat, len: nat, l: Layout, head: nat, tail: nat, i: nat)
    requires EndsMapped(cur, addr, len, l) && Private(cur, head, tail) && i < len && PageOf(addr + i) in cur
    ensures CopiedFrom(cur, l, head, tail, Phys(cur, addr + i)) == Cell(cur, addr, l, head, tail, i) <==>
            Unspoiled(cur, addr, len, l, i)
  {
    hide PageOf, Mapped, Private, CopiedFrom, Cell, InPart, Shares;
    SourceCases(cur, addr, len, l, head, tail, i);
    if !InTail(l, i) {
      SpoiledByTail(cur, addr, len, l, i);
      SpoiledByHead(cur, addr, len, l, i);
    }
  }

  lemma SourceCases(cur: Table, addr: nat, len: nat, l: Layout, head: nat, tail: nat, i: nat)
    requires EndsMapped(cur, addr, len, l) && Private(cur, head, tail) && i < len && PageOf(addr + i) in cur
    ensures var a := Phys(cur, addr + i);
            CopiedFrom(cur, l, head, tail, a) == Cell(cur, addr, l, head, tail, i) <==>
            InTail(l, i) || (!InPart(cur, LastPage(l), 0, l.tailLen, a) &&
                             (InHead(l, i) || !InPart(cur, l.page, l.offset, l.headLen, a)))
  {
    hide PageOf, Mapped, Private;
    ClientByte(cur, head, tail, addr + i);
    if InTail(l, i) {
      TailPhys(cur, addr, len, l, i);
    } else if InHead(l, i) {
      PrivateDiffer(cur, head, tail);
      HeadPhys(cur, addr, len, l, i);
    }
  }

  lemma PrivateDiffer(cur: Table, head: nat, tail: nat)
    requires Private(cur, head, tail)
    ensures head != tail
  {
  }

  lemma SpoiledByTail(cur: Table, addr: nat, len: nat, l: Layout, i: nat)
    requires EndsMapped(cur, addr, len, l) && PageOf(addr + i) in cur
    ensures InPart(cur, LastPage(l), 0, l.tailLen, Phys(cur, addr + i)) <==>
            exists j: nat :: j < len && InTail(l, j) && Shares(cur, addr, i, j)
  {
    hide PageOf, Mapped;
    var a := Phys(cur, addr + i);
    forall j: nat | j < len && InTail(l, j)
      ensures Shares(cur, addr, i, j) ==> InPart(cur, LastPage(l), 0, l.tailLen, a)
    {
      TailPhys(cur, addr, len, l, j);
    }
    if InPart(cur, LastPage(l), 0, l.tailLen, a) {
      var j := l.headLen + l.midCount * PAGE_SIZE + (a - cur[LastPage(l)].frame * PAGE_SIZE);
      TailPhys(cur, addr, len, l, j);
      assert Shares(cur, addr, i, j);
    }
  }

  lemma SpoiledByHead(cur: Table, addr: nat, len: nat, l: Layout, i: nat)
    requires EndsMapped(cur, addr, len, l) && PageOf(addr + i) in cur
    ensures InPart(cur, l.page, l.offset, l.headLen, Phys(cur, addr + i)) <==>
            exists j: nat :: j < len && InHead(l, j) && Shares(cur, addr, i, j)
  {
    hide PageOf, Mapped;
    var a := Phys(cur, addr + i);
    forall j: nat | j < len && InHead(l, j)
      ensures Shares(cur, addr, i, j) ==> InPart(cur, l.page, l.offset, l.headLen, a)
    {
      HeadPhys(cur, addr, len, l, j);
    }
    if InPart(cur, l.page, l.offset, l.headLen, a) {
      var j := a - cur[l.page].frame * PAGE_SIZE - l.offset;
      HeadPhys(cur, addr, len, l, j);
      assert Shares(cur, addr, i, j);
    }
  }

  // Of two bytes of the buffer that are the same memory, one of them in an end, one spoils the other.
  lemma OneSpoils(cur: Table, addr: nat, len: nat, l: Layout, i: nat, j: nat)
    requires EndsMapped(cur, addr, len, l) && i < len && j < len && i != j && Shares(cur, addr, i, j)
    requires InHead(l, i) || InTail(l, i)
    ensures Spoils(l, i, j) || Spoils(l, j, i)
  {
    hide PageOf, Mapped;
    if InHead(l, i) && InHead(l, j) {
      HeadPhys(cur, addr, len, l, i);
      HeadPhys(cur, addr, len, l, j);
    } else if InTail(l, i) && InTail(l, j) {
      TailPhys(cur, addr, len, l, i);
      TailPhys(cur, addr, len, l, j);
    }
  }

  lemma SharesBothWays(cur: Table, addr: nat, i: nat, j: nat)
    ensures Shares(cur, addr, i, j) <==> Shares(cur, addr, j, i)
  {
  }

  lemma ApartIffUnspoiled(cur: Table, addr: nat, len: nat)
    requires len > 0 && EndsMapped(cur, addr, len, LayoutOf(addr, len))
    ensures EndsApart(cur, addr, len) <==> forall i: nat :: i < len ==>
              Unspoiled(cur, addr, len, LayoutOf(addr, len), i)
  {
    hide LayoutOf, EndsMapped, Shares;
    var l := LayoutOf(addr, len);
    if EndsApart(cur, addr, len) {
      forall i: nat, j: nat | i < len && j < len && Spoils(l, i, j)
        ensures !Shares(cur, addr, i, j)
      {
        SharesBothWays(cur, addr, i, j);
      }
    } else {
      var i: nat, j: nat :| i < len && j < len && i != j && (InHead(l, i) || InTail(l, i)) && Shares(cur, addr, i, j);
      OneSpoils(cur, addr, len, l, i, j);
      SharesBothWays(cur, addr, i, j);
      assert !Unspoiled(cur, addr, len, l, i) || !Unspoiled(cur, addr, len, l, j);
    }
  }

  lemma CellSeen(cur: Table, t: Table, first: nat, addr: nat, len: nat, l: Layout, head: nat, tail: nat, i: nat)
    requires Shape(addr, len, l) && Aligned(first) && BackedBy(cur, t, first, l, head, tail)
    requires i < len && PageOf(addr + i) in cur
    ensures IsAt(t, first + l.offset + i, Cell(cur, addr, l, head, tail, i))
  {
    hide PageOf, BackedBy, IsAt, Aligned;
    if i < l.headLen {
      HeadByteAt(cur, t, first, addr, len, l, head, tail, i);
    } else if i < l.headLen + l.midCount * PAGE_SIZE {
      MiddleByteAt(cur, t, first, addr, len, l, head, tail, i);
    } else {
      TailByteAt(cur, t, first, addr, len, l, head, tail, i);
    }
  }

  lemma BufferEnds(cur: Table, addr: nat, len: nat)
    requires len > 0 && Mapped(cur, addr, len) && Shape(addr, len, LayoutOf(addr, len))
    ensures EndsMapped(cur, addr, len, LayoutOf(addr, len))
  {
    hide LayoutOf, MiddleMapped, PageOf, Shape, Mapped;
    BufferParts(cur, addr, len);
    PartsInPages(addr, len);
  }

  // After the release, byte `i` of the client's buffer is what the scheme left in its view of it.
  ghost predicate Delivered(
    cur: Table, addr: nat, len: nat, head: nat, tail: nat, t: Table, base: nat, written: Memory, i: nat
  )
    requires len > 0
  {
    var l := LayoutOf(addr, len);
    && Mapped(cur, addr, l.headLen) && Mapped(cur, TailAddr(addr, l), l.tailLen)
    && SameByte(CopiedBack(cur, written, addr, l, head, tail), cur, addr + i, written, t, base + i)
  }

  lemma DeliveredIs(
    cur: Table, addr: nat, len: nat, head: nat, tail: nat, t: Table, first: nat, written: Memory, i: nat
  )
    requires len > 0 && i < len && Mapped(cur, addr, len) && Private(cur, head, tail)
    requires var l := LayoutOf(addr, len);
               Shape(addr, len, l) && Aligned(first) && BackedBy(cur, t, first, l, head, tail)
    ensures var l := LayoutOf(addr, len);
            && PageOf(addr + i) in cur
            && (Delivered(cur, addr, len, head, tail, t, first + l.offset, written, i) <==>
                written(CopiedFrom(cur, l, head, tail, Phys(cur, addr + i))) ==
                  written(Cell(cur, addr, l, head, tail, i)))
  {
    hide LayoutOf, PageOf, BackedBy, Mapped, CopiedBack, CopiedFrom, Cell, Shape, Private;
    var l := LayoutOf(addr, len);
    BufferEnds(cur, addr, len);
    MappedAt(cur, addr, len, addr + i);
    CellSeen(cur, t, first, addr, len, l, head, tail, i);
    CopiedBackAt(cur, written, addr, len, l, head, tail, Phys(cur, addr + i));
  }

  ghost predicate AlwaysDelivered(cur: Table, addr: nat, len: nat, head: nat, tail: nat, t: Table, base: nat, i: nat)
    requires len > 0
  {
    forall written: Memory :: Delivered(cur, addr, len, head, tail, t, base, written, i)
  }

  lemma ByteDeliveredIff(cur: Table, addr: nat, len: nat, head: nat, tail: nat, t: Table, first: nat, i: nat)
    requires len > 0 && i < len && Mapped(cur, addr, len) && Private(cur, head, tail)
    requires var l := LayoutOf(addr, len);
               Shape(addr, len, l) && Aligned(first) && BackedBy(cur, t, first, l, head, tail)
    ensures var l := LayoutOf(addr, len);
            AlwaysDelivered(cur, addr, len, head, tail, t, first + l.offset, i) <==> Unspoiled(cur, addr, len, l, i)
  {
    hide LayoutOf, PageOf, BackedBy, Mapped, Delivered, CopiedFrom, Cell, Private, Shape, Unspoiled;
    var l := LayoutOf(addr, len);
    BufferEnds(cur, addr, len);
    MappedAt(cur, addr, len, addr + i);
    RightSource(cur, addr, len, l, head, tail, i);
    var from, cell := CopiedFrom(cur, l, head, tail, Phys(cur, addr + i)), Cell(cur, addr, l, head, tail, i);
    var base := first + l.offset;
    if AlwaysDelivered(cur, addr, len, head, tail, t, base, i) {
      // A scheme that writes something different everywhere tells all sources apart.
      var distinct: Memory := (a: nat) => a;
      assert Delivered(cur, addr, len, head, tail, t, base, distinct, i);
      DeliveredIs(cur, addr, len, head, tail, t, first, distinct, i);
      assert distinct(from) == from && distinct(cell) == cell;
    } else {
      var written: Memory :| !Delivered(cur, addr, len, head, tail, t, base, written, i);
      DeliveredIs(cur, addr, len, head, tail, t, first, written, i);
    }
  }

  // Whatever the scheme writes to a captured write buffer ends up in the client, byte for byte, iff no
  // byte of the buffer's two ends is the same memory as another byte of the buffer.
  lemma ClientGetsWritesIff(
    cur: Table, dst: Space, mem: Memory, addr: nat, len: nat, head: nat, tail: nat, c: Captured
  )
    requires len > 0 && Mapped(cur, addr, len) && Private(cur, head, tail)
    requires IsCapture(Wo, cur, dst, mem, addr, len, head, tail, c)
    ensures (forall i: nat :: i < len ==> AlwaysDelivered(cur, addr, len, head, tail, c.space.table, c.base, i))
            <==> EndsApart(cur, addr, len)
  {
    hide IsCapture, LayoutOf, PageOf, BackedBy, Mapped, KernelPages, AlwaysDelivered, Unspoiled, Private, Shape,
      EndsApart;
    CaptureShape(Wo, cur, dst, mem, addr, len, head, tail, c);
    BufferEnds(cur, addr, len);
    var l := LayoutOf(addr, len);
    forall i: nat | i < len
      ensures AlwaysDelivered(cur, addr, len, head, tail, c.space.table, c.base, i) <==> Unspoiled(cur, addr, len, l, i)
    {
      ByteDeliveredIff(cur, addr, len, head, tail, c.space.table, c.base - l.offset, i);
    }
    ApartIffUnspoiled(cur, addr, len);
  }

  // Two pages of one frame, and a buffer from two bytes before the end of the first to one byte before
  // the end of the second. Its first byte and byte 4096 of it are the same memory, in head and tail.
  const ALIASED: Table := map[PAGE_SIZE := Entry(5, PageFlagsOf(MapFlags(true, false, false, false))),
                              2 * PAGE_SIZE := Entry(5, PageFlagsOf(MapFlags(true, false, false, false)))]
  const ALIASED_ADDR: nat := 2 * PAGE_SIZE - 2
  const ALIASED_LEN: nat := PAGE_SIZE + 1

  lemma AliasedParts()
    ensures Mapped(ALIASED, ALIASED_ADDR, ALIASED_LEN) && Private(ALIASED, 6, 7)
    ensures LayoutOf(ALIASED_ADDR, ALIASED_LEN).midCount == 0 && !EndsApart(ALIASED, ALIASED_ADDR, ALIASED_LEN)
  {
    assert forall v: nat :: ALIASED_ADDR <= v < ALIASED_ADDR + ALIASED_LEN ==>
      PageOf(v) == PAGE_SIZE || PageOf(v) == 2 * PAGE_SIZE;
    assert Shares(ALIASED, ALIASED_ADDR, 0, PAGE_SIZE);
  }

  // Captured by a scheme with nothing else mapped, that buffer loses a byte the scheme wrote.
  method AliasedCaptureLoses(mem: Memory) returns (c: Captured)
    ensures IsCapture(Wo, ALIASED, NEW_SPACE, mem, ALIASED_ADDR, ALIASED_LEN, 6, 7, c)
    ensures exists written: Memory, i: nat :: i < ALIASED_LEN &&
              !Delivered(ALIASED, ALIASED_ADDR, ALIASED_LEN, 6, 7, c.space.table, c.base, written, i)
  {
    hide IsCapture, Delivered, FindFree, Mapped, Private, EndsApart, Grown, Space.Valid;
    AliasedParts();
    NewSpaceValid();
    NewSpaceFits(LayoutOf(ALIASED_ADDR, ALIASED_LEN).count);
    var r, _ := CaptureInner(Wo, ALIASED, NEW_SPACE, mem, ALIASED_ADDR, ALIASED_LEN, 6, 7,
      Answers(true, true, true, 0, true));
    c := r.value.value;
    ClientGetsWritesIff(ALIASED, NEW_SPACE, mem, ALIASED_ADDR, ALIASED_LEN, 6, 7, c);
  }

  lemma NewSpaceFits(count: nat)
    requires 0 < count < USER_END / PAGE_SIZE - 1
    ensures FindFree(NEW_SPACE.grants.holes, NEW_SPACE.mmapMin, count * PAGE_SIZE).Some?
  {
    hide FindFree, AttrsAt;
    NewSpaceValid();
    FindFreeRefinesSearch(NEW_SPACE.grants, NEW_SPACE.mmapMin, count * PAGE_SIZE);
    assert Fits(NEW_SPACE.grants, NEW_SPACE.mmapMin, count * PAGE_SIZE, PAGE_SIZE);
  }

  // A buffer of two bytes whose second page is not mapped: a client can have it sent at will. The capture
  // fails with a fault, and the scheme is left with a page it never asked for.
  method FaultingCaptureLeaks(mem: Memory) returns (r: Option<Result<Captured>>, space: Space)
    ensures r == Some(Err(EFAULT)) && space != NEW_SPACE
    ensures exists first :: Grown(NEW_SPACE, space, Region(first, PAGE_SIZE), CaptureAttrs(Ro))
  {
    hide IsCapture, FindFree, Private, Grown, Space.Valid;
    var cur: Table := map[PAGE_SIZE := Entry(5, PageFlagsOf(MapFlags(true, false, false, false)))];
    var addr := 2 * PAGE_SIZE - 1;
    assert Private(cur, 6, 7) by { OnePagePrivate(); }
    assert LayoutOf(addr, 2) == Layout(PAGE_SIZE, 2, PAGE_SIZE - 1, 1, 0, 1);
    assert PageOf(addr) == PAGE_SIZE && PageOf(addr + 1) == 2 * PAGE_SIZE;
    NewSpaceValid();
    NewSpaceFits(2);
    r, space := CaptureInner(Ro, cur, NEW_SPACE, mem, addr, 2, 6, 7, Answers(true, true, true, 0, true));
    assert FailureOf(Ro, cur, addr, LayoutOf(addr, 2), Answers(true, true, true, 0, true)) == Some(Fails(EFAULT, 1));
  }

  lemma OnePagePrivate()
    ensures Private(map[PAGE_SIZE := Entry(5, PageFlagsOf(MapFlags(true, false, false, false)))], 6, 7)
  {
  }
}
