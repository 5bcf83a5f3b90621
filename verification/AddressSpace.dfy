// An address space as a value: grants, holes and page table, and what mmap, munmap and mprotect do
// to all three. The in-place versions are in AddrSpaceObject.dfy.
module AddressSpaces {
  import opened Regions
  import opened Ordered
  import opened Holes
  import opened Grants

  // A present user page-table entry.
  datatype Entry = Entry(frame: nat, flags: PageFlags)

  // page address -> entry
  type Table = map<nat, Entry>

  datatype Space = Space(grants: UserGrants, table: Table, mmapMin: nat) {
    ghost predicate Valid() {
      && grants.Valid()
      && Agree(grants.inner, table)
      && Aligned(mmapMin)
    }
  }

  const NEW_SPACE: Space := Space(EMPTY_GRANTS, map[], PAGE_SIZE)

  // A page is mapped iff a grant covers it, with the flags of that grant.
  ghost predicate Agree(inner: Inner, table: Table) {
    forall p: nat :: && (p in table <==> Aligned(p) && AttrsAt(inner, p).Some?)
                     && (p in table ==> table[p].flags == AttrsAt(inner, p).value.flags)
  }

  function PagesIn(r: Region): (s: set<nat>) {
    set p: nat | r.start <= p < r.End() && Aligned(p)
  }

  lemma NewSpaceValid()
    ensures NEW_SPACE.Valid()
  {
    EmptyGrantsValid();
  }

  lemma ValidParts(s: Space)
    requires s.Valid()
    ensures s.grants.Valid() && WellFormed(s.grants.inner)
  {
  }

  lemma GrantKey(u: UserGrants, k: nat)
    requires u.Valid() && k in u.inner
    ensures u.inner[k].region.start == k && u.inner[k].region.IsPageRange()
  {
  }

  // The agreement that the kernel's consistency checker tests, read off a valid space: a page is
  // present iff exactly one grant covers it, and then with that grant's flags.
  lemma TableMatchesGrants(s: Space, p: nat)
    requires s.Valid() && Aligned(p)
    ensures p in s.table <==> exists k :: k in s.grants.inner && s.grants.inner[k].region.Has(p)
    ensures forall i, j ::
              && i in s.grants.inner && s.grants.inner[i].region.Has(p)
              && j in s.grants.inner && s.grants.inner[j].region.Has(p)
              ==> i == j
    ensures forall k :: k in s.grants.inner && s.grants.inner[k].region.Has(p) ==>
              p in s.table && s.table[p].flags == s.grants.inner[k].attrs.flags
  {
    forall k | k in s.grants.inner && s.grants.inner[k].region.Has(p)
      ensures AttrsAt(s.grants.inner, p) == Some(s.grants.inner[k].attrs)
    {
      AttrsAtKey(s.grants.inner, k, p);
    }
  }

  /// Per-byte effect of inserting, taking and carving

  lemma InsertAttrs(u: UserGrants, g: Grant)
    requires u.Valid() && g.region.IsPageRange() && IsFree(u.inner, g.region)
    ensures forall b :: AttrsAt(Insert(u, g).inner, b) == if g.region.Has(b) then Some(g.attrs) else AttrsAt(u.inner, b)
  {
    var n := Insert(u, g).inner;
    forall b
      ensures AttrsAt(n, b) == if g.region.Has(b) then Some(g.attrs) else AttrsAt(u.inner, b)
    {
      CoveredAfterAdd(u.inner, g, b);
      if g.region.Has(b) {
        AttrsAtKey(n, g.region.start, b);
      } else if Covered(u.inner, b) {
        var k :| k in u.inner && u.inner[k].region.Has(b);
        AttrsAtKey(u.inner, k, b);
        AttrsAtKey(n, k, b);
      }
    }
  }

  lemma AttrsAtWithout(inner: Inner, k: nat, b: int)
    requires WellFormed(inner) && k in inner
    ensures AttrsAt(inner - {k}, b) == if inner[k].region.Has(b) then None else AttrsAt(inner, b)
  {
    hide AttrsAt;
    var rest := inner - {k};
    if Covered(rest, b) {
      var j :| j in rest && rest[j].region.Has(b);
      AttrsAtKey(rest, j, b);
      AttrsAtKey(inner, j, b);
    } else {
      UncoveredAttrs(rest, b);
      if Covered(inner, b) {
        var j :| j in inner && inner[j].region.Has(b);
        assert j == k || j in rest;
      } else {
        UncoveredAttrs(inner, b);
      }
    }
  }

  lemma UncoveredAttrs(inner: Inner, b: int)
    requires !Covered(inner, b)
    ensures AttrsAt(inner, b).None?
  {
  }

  lemma TakeAttrs(u: UserGrants, k: nat)
    requires u.Valid() && k in u.inner
    ensures forall b :: AttrsAt(Take(u, k).1.inner, b) == if u.inner[k].region.Has(b) then None else AttrsAt(u.inner, b)
  {
    hide AttrsAt;
    forall b
      ensures AttrsAt(Take(u, k).1.inner, b) == if u.inner[k].region.Has(b) then None else AttrsAt(u.inner, b)
    {
      AttrsAtWithout(u.inner, k, b);
    }
  }

  ghost predicate CanCarve(u: UserGrants, k: nat, piece: Region) {
    && u.Valid() && k in u.inner && piece.IsPageRange()
    && u.inner[k].region.start <= piece.start && piece.End() <= u.inner[k].region.End()
  }

  lemma ExtractPages(g: Grant, piece: Region)
    requires g.region.IsPageRange() && piece.IsPageRange()
    requires g.region.start <= piece.start && piece.End() <= g.region.End()
    ensures var parts := g.Extract(piece);
            && (parts.0.Some? ==> parts.0.value.region.IsPageRange() && parts.0.value.region.start == g.region.start)
            && (parts.2.Some? ==> parts.2.value.region.IsPageRange() && parts.2.value.region.start == piece.End())
  {
    hide Aligned;
    AlignedDifference(g.region.start, piece.start);
    EndAligned(piece);
    EndAligned(g.region);
    AlignedDifference(piece.End(), g.region.End());
  }

  // Take grant `k`, split `piece` out of it and put the two remainders back.
  function Carve(u: UserGrants, k: nat, piece: Region): (r: UserGrants)
    requires CanCarve(u, k, piece)
    ensures r.Valid()
    ensures forall b :: AttrsAt(r.inner, b) == if piece.Has(b) then None else AttrsAt(u.inner, b)
    ensures forall j :: j in u.inner && j != k ==> j in r.inner && r.inner[j] == u.inner[j]
  {
    CarveAttrs(u, k, piece);
    var (before, _, after) := u.inner[k].Extract(piece);
    PutBack(PutBack(Take(u, k).1, before), after)
  }

  lemma CarveFits(u: UserGrants, k: nat, piece: Region)
    requires CanCarve(u, k, piece)
    ensures var (before, _, after) := u.inner[k].Extract(piece);
            var u1 := Take(u, k).1;
            && CanPutBack(u1, before) && CanPutBack(PutBack(u1, before), after)
  {
    hide AttrsAt, PutBack, IsFree;
    TakeAttrs(u, k);
    TakeValid(u, k);
    ExtractPages(u.inner[k], piece);
    var (before, _, after) := u.inner[k].Extract(piece);
    var u1 := Take(u, k).1;
    if before.Some? {
      FreeByAttrs(u1.inner, before.value.region);
    }
    if after.Some? {
      FreeByAttrs(PutBack(u1, before).inner, after.value.region);
    }
  }

  lemma CarveAttrs(u: UserGrants, k: nat, piece: Region)
    requires CanCarve(u, k, piece)
    ensures var (before, _, after) := u.inner[k].Extract(piece);
            var u1 := Take(u, k).1;
            && CanPutBack(u1, before) && CanPutBack(PutBack(u1, before), after)
            && var r := PutBack(PutBack(u1, before), after);
               && (forall b :: AttrsAt(r.inner, b) == if piece.Has(b) then None else AttrsAt(u.inner, b))
               && (forall j :: j in u.inner && j != k ==> j in r.inner && r.inner[j] == u.inner[j])
  {
    hide AttrsAt, PutBack, CanPutBack, UserGrants.Valid;
    CarveFits(u, k, piece);
    TakeAttrs(u, k);
    GrantAttrs(u, k);
    var g := u.inner[k];
    var (before, _, after) := g.Extract(piece);
    var r := PutBack(PutBack(Take(u, k).1, before), after);
    forall b
      ensures AttrsAt(r.inner, b) == if piece.Has(b) then None else AttrsAt(u.inner, b)
    {
      assert g.region.Has(b) && !piece.Has(b) <==>
        (before.Some? && before.value.region.Has(b)) || (after.Some? && after.value.region.Has(b));
    }
  }

  lemma FreeByAttrs(inner: Inner, r: Region)
    requires r.End() <= USER_END && forall b :: r.Has(b) ==> AttrsAt(inner, b).None?
    ensures IsFree(inner, r)
  {
  }

  lemma GrantAttrs(u: UserGrants, k: nat)
    requires u.Valid() && k in u.inner
    ensures forall b :: u.inner[k].region.Has(b) ==> AttrsAt(u.inner, b) == Some(u.inner[k].attrs)
  {
  }

  // Carve a piece and put it back with attributes `a`: exactly the bytes of the piece change.
  function Refit(u: UserGrants, k: nat, piece: Region, a: Attrs): (r: UserGrants)
    requires CanCarve(u, k, piece)
    ensures r.Valid()
    ensures forall b :: AttrsAt(r.inner, b) == if piece.Has(b) then Some(a) else AttrsAt(u.inner, b)
    ensures forall j :: j in u.inner && j != k ==> j in r.inner && r.inner[j] == u.inner[j]
  {
    PutBack(Carve(u, k, piece), Some(Grant(piece, a)))
  }

  ghost predicate CanPutBack(u: UserGrants, g: Option<Grant>) {
    u.Valid() && (g.Some? ==> g.value.region.IsPageRange() && IsFree(u.inner, g.value.region))
  }

  function PutBack(u: UserGrants, g: Option<Grant>): (r: UserGrants)
    requires CanPutBack(u, g)
    ensures r.Valid()
    ensures forall b :: AttrsAt(r.inner, b) == if g.Some? && g.value.region.Has(b) then Some(g.value.attrs)
              else AttrsAt(u.inner, b)
    ensures forall j :: j in u.inner ==> j in r.inner && r.inner[j] == u.inner[j]
  {
    if g.None? then u else
      InsertAttrs(u, g.value);
      Insert(u, g.value)
  }

  /// munmap

  datatype Unmapped = Unmapped(grants: UserGrants, table: Table, notify: seq<(FileRef, Region)>)

  // Keys of grants still to be processed for a request.
  ghost predicate Pending(u: UserGrants, todo: seq<nat>, requested: Region) {
    && u.Valid() && Aligned(requested.start) && Aligned(requested.size) && StrictlySorted(todo)
    && (forall k :: k in todo ==> k in u.inner && Overlaps(u.inner[k].region, requested))
  }

  function Piece(u: UserGrants, k: nat, requested: Region): (r: Region)
    requires k in u.inner
  {
    u.inner[k].region.Intersect(requested).Round()
  }

  // Page ranges meet in page ranges, so rounding the intersection changes nothing.
  lemma MeetInPages(r: Region, requested: Region)
    requires r.IsPageRange() && Aligned(requested.start) && Aligned(requested.size) && Overlaps(r, requested)
    ensures r.Intersect(requested).IsPageRange() && r.Intersect(requested).Round() == r.Intersect(requested)
    ensures r.start <= r.Intersect(requested).start && r.Intersect(requested).End() <= r.End()
  {
    var meet := r.Intersect(requested);
    assert Aligned(r.End()) && Aligned(requested.End());
    AlignedDifference(meet.start, meet.End());
  }

  lemma AlignedDifference(lo: nat, hi: nat)
    requires lo <= hi && Aligned(lo) && Aligned(hi)
    ensures Aligned(hi - lo) && RoundUp(hi - lo) == hi - lo
  {
  }

  lemma PieceExact(u: UserGrants, todo: seq<nat>, requested: Region)
    requires Pending(u, todo, requested) && todo != []
    ensures CanCarve(u, todo[0], Piece(u, todo[0], requested))
    ensures Piece(u, todo[0], requested) == u.inner[todo[0]].region.Intersect(requested)
  {
    assert todo[0] in todo;
    MeetInPages(u.inner[todo[0]].region, requested);
  }

  lemma CarvePending(u: UserGrants, todo: seq<nat>, requested: Region)
    requires Pending(u, todo, requested) && todo != []
    requires CanCarve(u, todo[0], Piece(u, todo[0], requested))
    ensures Pending(Carve(u, todo[0], Piece(u, todo[0], requested)), todo[1..], requested)
  {
    hide UserGrants.Valid;
    var next := Carve(u, todo[0], Piece(u, todo[0], requested));
    forall k | k in todo[1..]
      ensures k in todo && k != todo[0]
    {}
  }

  function MunmapLoop(u: UserGrants, table: Table, todo: seq<nat>, requested: Region): (r: Unmapped)
    requires Pending(u, todo, requested)
    decreases |todo|
  {
    if todo == [] then Unmapped(u, table, []) else
      PieceExact(u, todo, requested);
      CarvePending(u, todo, requested);
      var k := todo[0];
      var piece := Piece(u, k, requested);
      var rest := MunmapLoop(Carve(u, k, piece), table - PagesIn(piece), todo[1..], requested);
      var desc := u.inner[k].attrs.desc;
      var note := if desc.None? then [] else [(desc.value, u.inner[k].region.Intersect(requested))];
      rest.(notify := note + rest.notify)
  }

  ghost predicate InSome(inner: Inner, todo: seq<nat>, b: int) {
    exists k :: k in todo && k in inner && inner[k].region.Has(b)
  }

  lemma InSomeSplit(inner: Inner, todo: seq<nat>, b: int)
    requires todo != [] && todo[0] in inner
    ensures InSome(inner, todo, b) <==> inner[todo[0]].region.Has(b) || InSome(inner, todo[1..], b)
  {
  }

  lemma InSomeKept(before: Inner, after: Inner, todo: seq<nat>, b: int)
    requires forall k :: k in todo ==> k in before && k in after && after[k] == before[k]
    ensures InSome(before, todo, b) <==> InSome(after, todo, b)
  {
  }

  lemma {:induction false} MunmapLoopAttrs(u: UserGrants, table: Table, todo: seq<nat>, requested: Region)
    requires Pending(u, todo, requested)
    ensures MunmapLoop(u, table, todo, requested).grants.Valid()
    ensures forall b :: AttrsAt(MunmapLoop(u, table, todo, requested).grants.inner, b) ==
                        if requested.Has(b) && InSome(u.inner, todo, b) then None else AttrsAt(u.inner, b)
    decreases |todo|
  {
    if todo != [] {
      PieceExact(u, todo, requested);
      CarvePending(u, todo, requested);
      var k := todo[0];
      var piece := Piece(u, k, requested);
      var next := Carve(u, k, piece);
      MunmapLoopAttrs(next, table - PagesIn(piece), todo[1..], requested);
      forall b
        ensures InSome(u.inner, todo, b) <==> u.inner[k].region.Has(b) || InSome(next.inner, todo[1..], b)
      {
        InSomeSplit(u.inner, todo, b);
        InSomeKept(u.inner, next.inner, todo[1..], b);
      }
    }
  }

  lemma AgreeAfterUnmap(inner: Inner, next: Inner, table: Table, piece: Region)
    requires Agree(inner, table)
    requires forall b :: AttrsAt(next, b) == if piece.Has(b) then None else AttrsAt(inner, b)
    ensures Agree(next, table - PagesIn(piece))
  {
  }

  // Each step of the loop keeps page table and grants in agreement, and never rewrites an entry.
  lemma {:induction false} MunmapLoopTable(u: UserGrants, table: Table, todo: seq<nat>, requested: Region)
    requires Pending(u, todo, requested) && Agree(u.inner, table)
    ensures Agree(MunmapLoop(u, table, todo, requested).grants.inner, MunmapLoop(u, table, todo, requested).table)
    ensures forall p :: p in MunmapLoop(u, table, todo, requested).table ==>
              p in table && MunmapLoop(u, table, todo, requested).table[p] == table[p]
    decreases |todo|
  {
    hide Pending, Agree, AttrsAt, Carve, PagesIn;
    if todo != [] {
      PieceExact(u, todo, requested);
      CarvePending(u, todo, requested);
      var piece := Piece(u, todo[0], requested);
      var next := Carve(u, todo[0], piece);
      AgreeAfterUnmap(u.inner, next.inner, table, piece);
      MunmapLoopTable(next, table - PagesIn(piece), todo[1..], requested);
    }
  }

  function Munmap(s: Space, page: nat, count: nat): (r: (Space, seq<(FileRef, Region)>))
    requires s.Valid()
  {
    var requested := Region(page * PAGE_SIZE, count * PAGE_SIZE);
    var r := MunmapLoop(s.grants, s.table, Conflicts(s.grants.inner, requested), requested);
    (Space(r.grants, r.table, s.mmapMin), r.notify)
  }

  // The conflicting grants hold every covered byte of the request.
  lemma ConflictsCover(inner: Inner, requested: Region)
    requires WellFormed(inner) && Aligned(requested.start)
    ensures forall b :: requested.Has(b) ==>
              (InSome(inner, Conflicts(inner, requested), b) <==> AttrsAt(inner, b).Some?)
  {
    forall b | requested.Has(b)
      ensures InSome(inner, Conflicts(inner, requested), b) <==> Covered(inner, b)
    {
      if Covered(inner, b) {
        var k :| k in inner && inner[k].region.Has(b);
        OverlapByte(inner[k].region, requested, b);
        ConflictFound(inner, requested, k);
      }
    }
  }

  // munmap is exact: the bytes of the request lose their grant and page, all other bytes keep
  // theirs, attributes and frames included.
  lemma MunmapExact(s: Space, page: nat, count: nat)
    requires s.Valid()
    ensures var t := Munmap(s, page, count).0;
            var requested := Region(page * PAGE_SIZE, count * PAGE_SIZE);
            && t.Valid()
            && (forall b :: AttrsAt(t.grants.inner, b) == if requested.Has(b) then None else AttrsAt(s.grants.inner, b))
            && (forall p :: p in t.table <==> p in s.table && !requested.Has(p))
            && (forall p :: p in t.table ==> t.table[p] == s.table[p])
            && t.mmapMin == s.mmapMin
  {
    hide AttrsAt, Conflicts, MunmapLoop, Covered, InSome;
    var requested := Region(page * PAGE_SIZE, count * PAGE_SIZE);
    var inner := s.grants.inner;
    var todo := Conflicts(inner, requested);
    MunmapLoopAttrs(s.grants, s.table, todo, requested);
    MunmapLoopTable(s.grants, s.table, todo, requested);
    ConflictsCover(inner, requested);
  }

  // The file-backed grants among `todo`.
  function FileKeys(inner: Inner, todo: seq<nat>): (r: seq<nat>)
    requires forall k :: k in todo ==> k in inner
    ensures forall k :: k in r <==> k in todo && inner[k].attrs.desc.Some?
    ensures StrictlySorted(todo) ==> StrictlySorted(r)
  {
    if todo == [] then [] else
      var rest := FileKeys(inner, todo[1..]);
      assert forall i :: 0 <= i < |rest| ==> rest[i] in todo[1..];
      if inner[todo[0]].attrs.desc.Some? then [todo[0]] + rest else rest
  }

  // One note per key, in order: the file of that grant and its part of the request.
  ghost predicate Notes(inner: Inner, filed: seq<nat>, requested: Region, notes: seq<(FileRef, Region)>) {
    && |notes| == |filed|
    && (forall i :: 0 <= i < |notes| ==>
          && filed[i] in inner && inner[filed[i]].attrs.desc == Some(notes[i].0)
          && notes[i].1 == inner[filed[i]].region.Intersect(requested))
  }

  lemma {:induction false} MunmapLoopNotes(u: UserGrants, table: Table, todo: seq<nat>, requested: Region, inner: Inner)
    requires Pending(u, todo, requested)
    requires forall k :: k in todo ==> k in inner && inner[k] == u.inner[k]
    ensures Notes(inner, FileKeys(inner, todo), requested, MunmapLoop(u, table, todo, requested).notify)
    decreases |todo|
  {
    hide UserGrants.Valid, AttrsAt, Carve, PagesIn, Piece, Overlaps, Region.Intersect, CanCarve, Notes, FileKeys;
    if todo == [] {
      NoNotes(inner, requested);
    } else {
      PieceExact(u, todo, requested);
      CarvePending(u, todo, requested);
      var k := todo[0];
      var piece := Piece(u, k, requested);
      StillThere(u, todo, piece, inner);
      var rest := MunmapLoop(Carve(u, k, piece), table - PagesIn(piece), todo[1..], requested).notify;
      MunmapLoopNotes(Carve(u, k, piece), table - PagesIn(piece), todo[1..], requested, inner);
      assert k in todo;
      OneMoreNote(inner, todo, requested, rest);
    }
  }

  lemma NoNotes(inner: Inner, requested: Region)
    ensures Notes(inner, FileKeys(inner, []), requested, [])
  {
  }

  lemma StillThere(u: UserGrants, todo: seq<nat>, piece: Region, inner: Inner)
    requires StrictlySorted(todo) && todo != [] && CanCarve(u, todo[0], piece)
    requires forall k :: k in todo ==> k in u.inner && k in inner && inner[k] == u.inner[k]
    ensures var next := Carve(u, todo[0], piece);
            forall k :: k in todo[1..] ==> k in inner && k in next.inner && inner[k] == next.inner[k]
  {
    hide UserGrants.Valid, AttrsAt, CanCarve;
    forall k | k in todo[1..]
      ensures k in todo && k != todo[0]
    {}
  }

  lemma OneMoreNote(inner: Inner, todo: seq<nat>, requested: Region, rest: seq<(FileRef, Region)>)
    requires todo != [] && forall k :: k in todo ==> k in inner
    requires Notes(inner, FileKeys(inner, todo[1..]), requested, rest)
    ensures var desc := inner[todo[0]].attrs.desc;
            var note := if desc.None? then [] else [(desc.value, inner[todo[0]].region.Intersect(requested))];
            Notes(inner, FileKeys(inner, todo), requested, note + rest)
  {
    hide Region.Intersect, Notes;
    var k := todo[0];
    assert k in todo;
    var filed := FileKeys(inner, todo[1..]);
    if inner[k].attrs.desc.Some? {
      assert FileKeys(inner, todo) == [k] + filed;
      NotesCons(inner, k, filed, requested, rest);
    } else {
      assert FileKeys(inner, todo) == filed && [] + rest == rest;
    }
  }

  lemma NotesCons(inner: Inner, k: nat, filed: seq<nat>, requested: Region, rest: seq<(FileRef, Region)>)
    requires k in inner && inner[k].attrs.desc.Some? && Notes(inner, filed, requested, rest)
    ensures var note := (inner[k].attrs.desc.value, inner[k].region.Intersect(requested));
            Notes(inner, [k] + filed, requested, [note] + rest)
  {
    hide Region.Intersect;
    var notes := [(inner[k].attrs.desc.value, inner[k].region.Intersect(requested))] + rest;
    assert forall i :: 1 <= i < |notes| ==> notes[i] == rest[i - 1] && ([k] + filed)[i] == filed[i - 1];
  }

  // Each overlapped file-backed grant is notified once, in address order, with exactly its part of
  // the request; nothing else is notified.
  lemma MunmapNotifiesOnce(s: Space, page: nat, count: nat) returns (filed: seq<nat>)
    requires s.Valid()
    ensures var requested := Region(page * PAGE_SIZE, count * PAGE_SIZE);
            var inner := s.grants.inner;
            var notes := Munmap(s, page, count).1;
            && StrictlySorted(filed)
            && (forall k :: k in filed <==>
                  k in inner && inner[k].attrs.desc.Some? && Overlaps(inner[k].region, requested))
            && Notes(inner, filed, requested, notes)
            && (forall i, b :: 0 <= i < |notes| ==>
                  (notes[i].1.Has(b) <==> inner[filed[i]].region.Has(b) && requested.Has(b)))
  {
    hide Conflicts, MunmapLoop, Overlaps, FileKeys, AttrsAt, Region.Intersect;
    var requested := Region(page * PAGE_SIZE, count * PAGE_SIZE);
    var inner := s.grants.inner;
    var todo := Conflicts(inner, requested);
    ConflictsExact(inner, requested);
    MunmapLoopNotes(s.grants, s.table, todo, requested, inner);
    filed := FileKeys(inner, todo);
    forall k, b | k in inner
      ensures inner[k].region.Intersect(requested).Has(b) <==> inner[k].region.Has(b) && requested.Has(b)
    {
      IntersectHas(inner[k].region, requested, b);
    }
  }

  lemma IntersectHas(r: Region, other: Region, b: int)
    ensures r.Intersect(other).Has(b) <==> r.Has(b) && other.Has(b)
  {
  }

  /// mprotect

  datatype Protected = Protected(grants: UserGrants, table: Table, ok: bool)

  function RemapPages(table: Table, pages: set<nat>, flags: PageFlags): (r: Table)
    ensures r.Keys == table.Keys
  {
    map p | p in table :: if p in pages then table[p].(flags := flags) else table[p]
  }

  function MprotectLoop(u: UserGrants, table: Table, todo: seq<nat>, requested: Region, flags: MapFlags): (r: Protected)
    requires Pending(u, todo, requested)
    decreases |todo|
  {
    if todo == [] then Protected(u, table, true) else
      PieceExact(u, todo, requested);
      var k := todo[0];
      var piece := Piece(u, k, requested);
      var attrs := u.inner[k].attrs;
      if !attrs.CanHaveFlags(flags) then
        Protected(Refit(u, k, piece, attrs), table, false)
      else
        RefitPending(u, todo, requested, attrs.Protect(flags));
        var changed := attrs.Protect(flags);
        MprotectLoop(Refit(u, k, piece, changed), RemapPages(table, PagesIn(piece), changed.flags), todo[1..],
          requested, flags)
  }

  lemma RefitPending(u: UserGrants, todo: seq<nat>, requested: Region, a: Attrs)
    requires Pending(u, todo, requested) && todo != []
    requires CanCarve(u, todo[0], Piece(u, todo[0], requested))
    ensures Pending(Refit(u, todo[0], Piece(u, todo[0], requested), a), todo[1..], requested)
  {
    hide UserGrants.Valid;
    var next := Refit(u, todo[0], Piece(u, todo[0], requested), a);
    forall k | k in todo[1..]
      ensures k in todo && k != todo[0]
    {}
  }

  // How many of the grants accept the flags before one refuses.
  function Accepting(inner: Inner, todo: seq<nat>, flags: MapFlags): (n: nat)
    requires forall k :: k in todo ==> k in inner
    ensures n <= |todo|
    ensures forall i :: 0 <= i < n ==> inner[todo[i]].attrs.CanHaveFlags(flags)
    ensures n < |todo| ==> !inner[todo[n]].attrs.CanHaveFlags(flags)
  {
    if todo == [] || !inner[todo[0]].attrs.CanHaveFlags(flags) then 0 else 1 + Accepting(inner, todo[1..], flags)
  }

  ghost function ProtectAt(a: Option<Attrs>, flags: MapFlags): Option<Attrs> {
    if a.None? then None else Some(a.value.Protect(flags))
  }

  lemma {:induction false} MprotectLoopAttrs(
    u: UserGrants, table: Table, todo: seq<nat>, requested: Region, flags: MapFlags
  )
    requires Pending(u, todo, requested)
    ensures var r := MprotectLoop(u, table, todo, requested, flags);
            var done := todo[..Accepting(u.inner, todo, flags)];
            && r.grants.Valid()
            && (r.ok <==> |done| == |todo|)
            && (forall b :: AttrsAt(r.grants.inner, b) ==
                            if requested.Has(b) && InSome(u.inner, done, b) then ProtectAt(AttrsAt(u.inner, b), flags)
                              else AttrsAt(u.inner, b))
    decreases |todo|
  {
    hide AttrsAt, Refit, PagesIn, RemapPages, InSome, UserGrants.Valid, CanCarve;
    InSomeNone(u.inner);
    if todo != [] {
      PieceExact(u, todo, requested);
      var k := todo[0];
      var piece := Piece(u, k, requested);
      var attrs := u.inner[k].attrs;
      GrantAttrs(u, k);
      if attrs.CanHaveFlags(flags) {
        RefitPending(u, todo, requested, attrs.Protect(flags));
        var next := Refit(u, k, piece, attrs.Protect(flags));
        MprotectLoopAttrs(next, RemapPages(table, PagesIn(piece), attrs.Protect(flags).flags), todo[1..], requested,
          flags);
        AcceptedSplit(u.inner, next.inner, todo, flags);
      }
    }
  }

  lemma InSomeNone(inner: Inner)
    ensures forall b :: !InSome(inner, [], b)
  {
  }

  lemma AcceptedSplit(before: Inner, after: Inner, todo: seq<nat>, flags: MapFlags)
    requires StrictlySorted(todo) && todo != [] && forall k :: k in todo ==> k in before
    requires forall k :: k in before && k != todo[0] ==> k in after && after[k] == before[k]
    requires before[todo[0]].attrs.CanHaveFlags(flags)
    ensures forall k :: k in todo[1..] ==> k in after
    ensures Accepting(before, todo, flags) == 1 + Accepting(after, todo[1..], flags)
    ensures forall b :: InSome(before, todo[..Accepting(before, todo, flags)], b) <==>
                        before[todo[0]].region.Has(b) ||
                          InSome(after, todo[1..][..Accepting(after, todo[1..], flags)], b)
  {
    forall k | k in todo[1..]
      ensures k in todo && k != todo[0]
    {}
    AcceptingKept(before, after, todo[1..], flags);
    var n := Accepting(before, todo, flags);
    assert todo[1..][..n - 1] == todo[..n][1..];
    forall b
      ensures InSome(before, todo[..n], b) <==> before[todo[0]].region.Has(b) || InSome(after, todo[1..][..n - 1], b)
    {
      InSomeSplit(before, todo[..n], b);
      InSomeKept(before, after, todo[..n][1..], b);
    }
  }

  lemma {:induction false} AcceptingKept(before: Inner, after: Inner, todo: seq<nat>, flags: MapFlags)
    requires forall k :: k in todo ==> k in before && k in after && after[k] == before[k]
    ensures Accepting(before, todo, flags) == Accepting(after, todo, flags)
  {
  }

  lemma AgreeAfterRemap(inner: Inner, next: Inner, table: Table, piece: Region, a: Attrs)
    requires Agree(inner, table)
    requires forall b :: AttrsAt(next, b) == if piece.Has(b) then Some(a) else AttrsAt(inner, b)
    requires forall b :: piece.Has(b) ==> AttrsAt(inner, b).Some?
    ensures Agree(next, RemapPages(table, PagesIn(piece), a.flags))
  {
  }

  // The same page frames stay mapped at the same pages.
  ghost predicate SameFrames(t1: Table, t2: Table) {
    t1.Keys == t2.Keys && forall p :: p in t1 ==> t2[p].frame == t1[p].frame
  }

  lemma {:induction false} MprotectLoopTable(
    u: UserGrants, table: Table, todo: seq<nat>, requested: Region, flags: MapFlags
  )
    requires Pending(u, todo, requested) && Agree(u.inner, table)
    ensures var r := MprotectLoop(u, table, todo, requested, flags);
              Agree(r.grants.inner, r.table) && SameFrames(table, r.table)
    decreases |todo|
  {
    hide AttrsAt, Refit, PagesIn, UserGrants.Valid, CanCarve, Agree, RemapPages;
    if todo != [] {
      PieceExact(u, todo, requested);
      var k := todo[0];
      var piece := Piece(u, k, requested);
      var attrs := u.inner[k].attrs;
      GrantAttrs(u, k);
      if attrs.CanHaveFlags(flags) {
        var changed := attrs.Protect(flags);
        RefitPending(u, todo, requested, changed);
        var next := Refit(u, k, piece, changed);
        AgreeAfterRemap(u.inner, next.inner, table, piece, changed);
        RemapKeepsFrames(table, PagesIn(piece), changed.flags);
        MprotectLoopTable(next, RemapPages(table, PagesIn(piece), changed.flags), todo[1..], requested, flags);
      } else {
        RefitSame(u, k, piece, table);
      }
    }
  }

  lemma RemapKeepsFrames(table: Table, pages: set<nat>, flags: PageFlags)
    ensures SameFrames(table, RemapPages(table, pages, flags))
  {
  }

  lemma RefitSame(u: UserGrants, k: nat, piece: Region, table: Table)
    requires CanCarve(u, k, piece) && Agree(u.inner, table)
    ensures Agree(Refit(u, k, piece, u.inner[k].attrs).inner, table)
  {
    hide AttrsAt, Refit;
    GrantAttrs(u, k);
  }

  function Mprotect(s: Space, page: nat, count: nat, flags: MapFlags): (r: (Space, bool))
    requires s.Valid()
  {
    var requested := Region(page * PAGE_SIZE, count * PAGE_SIZE);
    var r := MprotectLoop(s.grants, s.table, Conflicts(s.grants.inner, requested), requested, flags);
    (Space(r.grants, r.table, s.mmapMin), r.ok)
  }

  // The grants processed before the one that refuses hold exactly the covered bytes below it.
  lemma AcceptedBytes(inner: Inner, requested: Region, n: nat)
    requires WellFormed(inner) && Aligned(requested.start) && n < |Conflicts(inner, requested)|
    ensures var todo := Conflicts(inner, requested);
            forall b :: requested.Has(b) ==> (InSome(inner, todo[..n], b) <==> AttrsAt(inner, b).Some? && b < todo[n])
  {
    hide Conflicts, Overlaps;
    var todo := Conflicts(inner, requested);
    assert todo[n] in todo;
    ConflictsExact(inner, requested);
    forall b | requested.Has(b)
      ensures InSome(inner, todo[..n], b) <==> Covered(inner, b) && b < todo[n]
    {
      if Covered(inner, b) && b < todo[n] {
        var k :| k in inner && inner[k].region.Has(b);
        OverlapByte(inner[k].region, requested, b);
        var i :| 0 <= i < |todo| && todo[i] == k;
        assert todo[..n][i] == k;
      }
    }
  }

  // Owned memory may get any protection, other memory none that it does not have.
  ghost predicate Allows(a: Attrs, flags: MapFlags) {
    a.owned || ((flags.write ==> a.flags.write) && (flags.exec ==> a.flags.execute))
  }

  // The write and execute bits are as asked for, and nothing else is different.
  ghost predicate Reprotected(before: PageFlags, after: PageFlags, flags: MapFlags) {
    && after.write == flags.write && after.execute == flags.exec
    && after.user == before.user && after.custom == before.custom
  }

  lemma AllowsExact(a: Attrs, flags: MapFlags)
    ensures a.CanHaveFlags(flags) <==> Allows(a, flags)
  {
  }

  lemma ProtectExact(a: Attrs, flags: MapFlags)
    ensures var n := a.Protect(flags);
            && Reprotected(a.flags, n.flags, flags)
            && n.owned == a.owned && n.allocatorOwned == a.allocatorOwned && n.desc == a.desc
  {
  }

  // What mprotect does to each byte and each page, bit by bit.
  lemma MprotectBits(s: Space, page: nat, count: nat, flags: MapFlags) returns (limit: nat)
    requires s.Valid()
    ensures var t := Mprotect(s, page, count, flags).0;
            var requested := Region(page * PAGE_SIZE, count * PAGE_SIZE);
            && t.Valid() && t.mmapMin == s.mmapMin
            && (forall b :: AttrsAt(t.grants.inner, b).Some? <==> AttrsAt(s.grants.inner, b).Some?)
            && (forall b :: AttrsAt(s.grants.inner, b).Some? ==>
                  var a, n := AttrsAt(s.grants.inner, b).value, AttrsAt(t.grants.inner, b).value;
                  && n.owned == a.owned && n.allocatorOwned == a.allocatorOwned && n.desc == a.desc
                  && (if requested.Has(b) && b < limit then Reprotected(a.flags, n.flags, flags)
                      else n.flags == a.flags))
            && t.table.Keys == s.table.Keys
            && (forall p :: p in s.table ==>
                  && t.table[p].frame == s.table[p].frame
                  && (if requested.Has(p) && p < limit then Reprotected(s.table[p].flags, t.table[p].flags, flags)
                      else t.table[p].flags == s.table[p].flags))
    ensures var requested := Region(page * PAGE_SIZE, count * PAGE_SIZE);
            var inner := s.grants.inner;
            if Mprotect(s, page, count, flags).1 then
              && limit == requested.End()
              && (forall k :: k in inner && Overlaps(inner[k].region, requested) ==> Allows(inner[k].attrs, flags))
            else
              && limit in inner && Overlaps(inner[limit].region, requested) && !Allows(inner[limit].attrs, flags)
              && (forall k :: k in inner && k < limit && Overlaps(inner[k].region, requested) ==>
                    Allows(inner[k].attrs, flags))
  {
    hide AttrsAt, Mprotect, Overlaps, Allows, Reprotected, Attrs.Protect, Attrs.CanHaveFlags, UserGrants.Valid;
    limit := MprotectExact(s, page, count, flags);
    var t := Mprotect(s, page, count, flags).0;
    forall a: Attrs
      ensures a.CanHaveFlags(flags) <==> Allows(a, flags)
    {
      AllowsExact(a, flags);
    }
    forall b | AttrsAt(s.grants.inner, b).Some?
      ensures var a := AttrsAt(s.grants.inner, b).value;
              && Reprotected(a.flags, a.Protect(flags).flags, flags) && a.Protect(flags).owned == a.owned
              && a.Protect(flags).allocatorOwned == a.allocatorOwned && a.Protect(flags).desc == a.desc
    {
      ProtectExact(AttrsAt(s.grants.inner, b).value, flags);
    }
    assert forall p :: p in s.table ==>
      AttrsAt(s.grants.inner, p).Some? && t.table[p].flags == AttrsAt(t.grants.inner, p).value.flags;
  }

  // No byte of memory that is not owned gains a permission it did not have, whether mprotect succeeds or not.
  lemma MprotectNeverWidens(s: Space, page: nat, count: nat, flags: MapFlags, b: int)
    requires s.Valid() && AttrsAt(s.grants.inner, b).Some? && !AttrsAt(s.grants.inner, b).value.owned
    ensures var after := AttrsAt(Mprotect(s, page, count, flags).0.grants.inner, b);
            var before := AttrsAt(s.grants.inner, b).value;
            && after.Some? && (after.value.flags.write ==> before.flags.write)
            && (after.value.flags.execute ==> before.flags.execute)
  {
    hide AttrsAt, Mprotect, UserGrants.Valid;
    var limit := MprotectBits(s, page, count, flags);
    var inner := s.grants.inner;
    ValidParts(s);
    if Region(page * PAGE_SIZE, count * PAGE_SIZE).Has(b) && b < limit {
      assert Covered(inner, b) by { if !Covered(inner, b) { UncoveredAttrs(inner, b); } }
      var k :| k in inner && inner[k].region.Has(b);
      AttrsAtKey(inner, k, b);
      OverlapByte(inner[k].region, Region(page * PAGE_SIZE, count * PAGE_SIZE), b);
    }
  }

  // mprotect succeeds iff every overlapped grant accepts the flags. It then changes the write and
  // execute bits of exactly the covered bytes of the request; when it fails, of exactly those below
  // the first grant that refuses. Coverage, holes and frames never change.
  lemma MprotectExact(s: Space, page: nat, count: nat, flags: MapFlags) returns (limit: nat)
    requires s.Valid()
    ensures var t := Mprotect(s, page, count, flags).0;
            var requested := Region(page * PAGE_SIZE, count * PAGE_SIZE);
            && t.Valid() && t.grants.holes == s.grants.holes && SameFrames(s.table, t.table) && t.mmapMin == s.mmapMin
            && (forall b :: AttrsAt(t.grants.inner, b) ==
                            if requested.Has(b) && b < limit then ProtectAt(AttrsAt(s.grants.inner, b), flags)
                              else AttrsAt(s.grants.inner, b))
    ensures var requested := Region(page * PAGE_SIZE, count * PAGE_SIZE);
            var inner := s.grants.inner;
            if Mprotect(s, page, count, flags).1 then
              && limit == requested.End()
              && (forall k :: k in inner && Overlaps(inner[k].region, requested) ==> inner[k].attrs.CanHaveFlags(flags))
            else
              && limit in inner && Overlaps(inner[limit].region, requested) && !inner[limit].attrs.CanHaveFlags(flags)
              && (forall k :: k in inner && k < limit && Overlaps(inner[k].region, requested) ==>
                    inner[k].attrs.CanHaveFlags(flags))
  {
    hide AttrsAt, Conflicts, MprotectLoop, Covered, InSome, WellFormed, Overlaps;
    var requested := Region(page * PAGE_SIZE, count * PAGE_SIZE);
    var inner := s.grants.inner;
    var todo := Conflicts(inner, requested);
    var n := Accepting(inner, todo, flags);
    limit := if n < |todo| then todo[n] else requested.End();
    MprotectLoopAttrs(s.grants, s.table, todo, requested, flags);
    MprotectLoopTable(s.grants, s.table, todo, requested, flags);
    if n < |todo| {
      AcceptedBytes(inner, requested, n);
    } else {
      ConflictsCover(inner, requested);
      assert todo[..n] == todo;
    }
    SameHolesByAttrs(s.grants, Mprotect(s, page, count, flags).0.grants);
    AcceptingMeans(inner, requested, flags);
  }

  lemma AcceptingMeans(inner: Inner, requested: Region, flags: MapFlags)
    requires WellFormed(inner) && Aligned(requested.start)
    ensures var todo := Conflicts(inner, requested);
            var n := Accepting(inner, todo, flags);
            var limit := if n < |todo| then todo[n] else requested.End();
            forall k :: k in inner && Overlaps(inner[k].region, requested) && (k < limit || n == |todo|) ==>
              inner[k].attrs.CanHaveFlags(flags)
  {
    hide Conflicts, WellFormed, Overlaps;
    var todo := Conflicts(inner, requested);
    var n := Accepting(inner, todo, flags);
    var limit := if n < |todo| then todo[n] else requested.End();
    ConflictsExact(inner, requested);
    forall k | k in inner && Overlaps(inner[k].region, requested) && (k < limit || n == |todo|)
      ensures inner[k].attrs.CanHaveFlags(flags)
    {
      var i :| 0 <= i < |todo| && todo[i] == k;
      assert i < n;
    }
  }

  lemma SameHolesByAttrs(u: UserGrants, v: UserGrants)
    requires u.Valid() && v.Valid()
    requires forall b :: AttrsAt(u.inner, b).Some? <==> AttrsAt(v.inner, b).Some?
    ensures u.holes == v.holes
  {
    forall b
      ensures Covered(u.inner, b) <==> Covered(v.inner, b)
    {
      assert AttrsAt(u.inner, b).Some? <==> Covered(u.inner, b);
      assert AttrsAt(v.inner, b).Some? <==> Covered(v.inner, b);
    }
    HolesDetermined(u, v);
  }

  /// mmap

  // What the mapping callback put behind a grant: one frame per page, and the grant's attributes.
  datatype Mapping = Mapping(frames: seq<nat>, attrs: Attrs)

  function MapPages(table: Table, base: nat, m: Mapping): (r: Table)
    requires Aligned(base)
  {
    table + map p | p in PagesIn(Region(base, |m.frames| * PAGE_SIZE)) ::
      Entry(m.frames[(p - base) / PAGE_SIZE], m.attrs.flags)
  }

  // A region for one new grant.
  ghost predicate CanPlace(s: Space, region: Region, m: Mapping) {
    s.Valid() && region.IsPageRange() && IsFree(s.grants.inner, region) && region.size == |m.frames| * PAGE_SIZE
  }

  // One new grant over a free region, with one frame per page.
  function Place(s: Space, region: Region, m: Mapping): Space
    requires CanPlace(s, region, m)
  {
    Space(Insert(s.grants, Grant(region, m.attrs)), MapPages(s.table, region.start, m), s.mmapMin)
  }

  lemma AgreeAfterMap(inner: Inner, next: Inner, table: Table, base: nat, m: Mapping)
    requires Agree(inner, table) && Aligned(base)
    requires forall b :: AttrsAt(next, b) == if Region(base, |m.frames| * PAGE_SIZE).Has(b) then Some(m.attrs)
               else AttrsAt(inner, b)
    ensures Agree(next, MapPages(table, base, m))
  {
    hide AttrsAt;
  }

  lemma PlaceExact(s: Space, region: Region, m: Mapping)
    requires CanPlace(s, region, m)
    ensures Place(s, region, m).Valid()
    ensures Place(s, region, m).grants.inner == s.grants.inner[region.start := Grant(region, m.attrs)]
    ensures forall b :: AttrsAt(Place(s, region, m).grants.inner, b) == if region.Has(b) then Some(m.attrs)
              else AttrsAt(s.grants.inner, b)
    ensures forall b :: region.Has(b) ==> AttrsAt(s.grants.inner, b).None?
    ensures Place(s, region, m).mmapMin == s.mmapMin
  {
    InsertAttrs(s.grants, Grant(region, m.attrs));
    hide Insert;
    AgreeAfterMap(s.grants.inner, Place(s, region, m).grants.inner, s.table, region.start, m);
  }

  function PickRegion(u: UserGrants, min: nat, page: Option<nat>, size: nat, flags: MapFlags): (r: Result<Region>)
    requires u.Valid() && Aligned(min) && Aligned(size) && size > 0
    ensures r.Ok? ==> r.value.size == size && r.value.IsPageRange() && IsFree(u.inner, r.value)
  {
    FindFreeAtExact(u, min, if page.Some? then page.value * PAGE_SIZE else 0, size, flags);
    if page.Some? then FindFreeAt(u, min, page.value * PAGE_SIZE, size, flags)
    else var f := FindFree(u.holes, min, size); if f.None? then Err(ENOMEM) else Ok(f.value)
  }

  // Returns the region chosen and the space with the new grant in it.
  function Mmap(s: Space, page: Option<nat>, flags: MapFlags, m: Mapping): (r: Result<(Region, Space)>)
    requires s.Valid()
    ensures r.Ok? ==> CanPlace(s, r.value.0, m) && r.value.1 == Place(s, r.value.0, m)
  {
    if m.frames == [] then Err(EINVAL) else
      var found := PickRegion(s.grants, s.mmapMin, page, |m.frames| * PAGE_SIZE, flags);
      if found.Err? then Err(found.error) else Ok((found.value, Place(s, found.value, m)))
  }

  // The outcome of every mmap in terms of the grants alone: a free address asked for is taken, a taken
  // one is refused if it was fixed, and otherwise the least free stretch above the minimum is chosen.
  lemma MmapOutcome(s: Space, page: Option<nat>, flags: MapFlags, m: Mapping)
    requires s.Valid()
    ensures var size := |m.frames| * PAGE_SIZE;
            var at := if page.Some? then page.value * PAGE_SIZE else 0;
            var out := Mmap(s, page, flags, m);
            if size == 0 || (at != 0 && at + size > USER_END) then out == Err(EINVAL)
            else if at != 0 && IsFree(s.grants.inner, Region(at, size)) then out.Ok? && out.value.0 == Region(at, size)
            else if at != 0 && flags.noReplace then out == Err(EEXIST)
            else if at != 0 && flags.fixed then out == Err(EOPNOTSUPP)
            else if out.Ok? then
              && out.value.0.size == size && Fits(s.grants, s.mmapMin, size, out.value.0.start)
              && forall a :: Fits(s.grants, s.mmapMin, size, a) ==> out.value.0.start <= a
            else out == Err(ENOMEM) && forall a :: !Fits(s.grants, s.mmapMin, size, a)
  {
    hide FindFree, FindFreeAt, Fits, IsFree, Place, UserGrants.Valid;
    if m.frames != [] {
      FindFreeRefinesSearch(s.grants, s.mmapMin, |m.frames| * PAGE_SIZE);
      var at := if page.Some? then page.value * PAGE_SIZE else 0;
      FindFreeAtOutcome(s.grants, s.mmapMin, at, |m.frames| * PAGE_SIZE, flags);
    }
  }

  // Every page of the region is there for the user, writable and executable as asked for and no more, and
  // belongs to a grant that owns it or not, for a file or none.
  ghost predicate MappedAs(s: Space, region: Region, flags: MapFlags, owned: bool, desc: Option<FileRef>) {
    && (forall p: nat :: region.Has(p) && Aligned(p) ==>
          && p in s.table && s.table[p].flags.user && s.table[p].flags.custom == 0
          && (s.table[p].flags.write <==> flags.write) && (s.table[p].flags.execute <==> flags.exec))
    && (forall b :: region.Has(b) ==>
          && AttrsAt(s.grants.inner, b).Some?
          && var a := AttrsAt(s.grants.inner, b).value;
             && a.owned == owned && a.allocatorOwned == owned && a.desc == desc
             && (a.flags.write <==> flags.write) && (a.flags.execute <==> flags.exec))
  }

  // What mmap maps has the protection that was asked for.
  lemma MmapProtects(s: Space, page: Option<nat>, flags: MapFlags, m: Mapping)
    requires s.Valid() && m.attrs.owned == m.attrs.allocatorOwned && m.attrs.flags == PageFlagsOf(flags)
    ensures var r := Mmap(s, page, flags, m);
            r.Ok? ==> r.value.1.Valid() && MappedAs(r.value.1, r.value.0, flags, m.attrs.owned, m.attrs.desc)
  {
    hide AttrsAt, Mmap, Place, CanPlace, UserGrants.Valid, Aligned;
    var r := Mmap(s, page, flags, m);
    if r.Ok? {
      PlaceExact(s, r.value.0, m);
    }
  }

  /// Runs

  datatype Op =
    | OpMmap(page: Option<nat>, flags: MapFlags, mapping: Mapping)
    | OpMunmap(first: nat, count: nat)
    | OpMprotect(base: nat, pages: nat, prot: MapFlags)
    | OpSetMin(min: nat)

  function Apply(s: Space, op: Op): (t: Space)
    requires s.Valid()
  {
    match op
    case OpMmap(page, flags, m) => var r := Mmap(s, page, flags, m); if r.Ok? then r.value.1 else s
    case OpMunmap(first, count) => Munmap(s, first, count).0
    case OpMprotect(base, pages, prot) => Mprotect(s, base, pages, prot).0
    // The scheme that writes this setting accepts only page-aligned values.
    case OpSetMin(min) => if Aligned(min) then s.(mmapMin := min) else s
  }

  lemma ApplyValid(s: Space, op: Op)
    requires s.Valid()
    ensures Apply(s, op).Valid()
  {
    hide Munmap, Mprotect, Mmap, Place, CanPlace, AttrsAt;
    match op
    case OpMmap(page, flags, m) =>
      var r := Mmap(s, page, flags, m);
      if r.Ok? {
        PlaceExact(s, r.value.0, m);
      }
    case OpMunmap(first, count) => MunmapExact(s, first, count);
    case OpMprotect(base, pages, prot) => var _ := MprotectExact(s, base, pages, prot);
    case OpSetMin(min) =>
  }

  // What each operation of a run does to each byte: it maps exactly the region found, unmaps exactly the
  // request, and a change of protection or of the minimum covers and uncovers nothing.
  lemma ApplyBytes(s: Space, op: Op, b: int)
    requires s.Valid()
    ensures var t := Apply(s, op);
            var before, after := AttrsAt(s.grants.inner, b), AttrsAt(t.grants.inner, b);
            match op
            case OpMmap(page, flags, m) =>
              var at := Mmap(s, page, flags, m);
              if at.Err? then t == s else after == if at.value.0.Has(b) then Some(m.attrs) else before
            case OpMunmap(first, count) =>
              after == if first * PAGE_SIZE <= b < (first + count) * PAGE_SIZE then None else before
            case OpMprotect(base, pages, _) =>
              && (after.Some? <==> before.Some?)
              && (!(base * PAGE_SIZE <= b < (base + pages) * PAGE_SIZE) ==> after == before)
            case OpSetMin(min) => t.grants == s.grants && t.table == s.table && (Aligned(min) ==> t.mmapMin == min)
  {
    hide Munmap, Mprotect, Mmap, Place, CanPlace, AttrsAt, UserGrants.Valid, Agree;
    match op
    case OpMmap(page, flags, m) =>
      var r := Mmap(s, page, flags, m);
      if r.Ok? {
        PlaceExact(s, r.value.0, m);
      }
    case OpMunmap(first, count) => MunmapExact(s, first, count);
    case OpMprotect(base, pages, prot) => var _ := MprotectExact(s, base, pages, prot);
    case OpSetMin(min) =>
  }

  // The state after a run of operations on a new address space.
  function StateAfter(ops: seq<Op>): (s: Space)
    ensures s.Valid()
  {
    if ops == [] then NewSpaceValid(); NEW_SPACE else
      var s := StateAfter(ops[..|ops| - 1]);
      ApplyValid(s, ops[|ops| - 1]);
      Apply(s, ops[|ops| - 1])
  }

  // Whatever was mapped, unmapped and protected: a page is present iff exactly one grant covers
  // it, then with that grant's flags; and a byte of user space is in a hole iff it is in no grant,
  // with no two holes touching.
  lemma EveryRunConsistent(ops: seq<Op>, p: nat)
    requires Aligned(p)
    ensures var s := StateAfter(ops); var inner := s.grants.inner;
            && (p in s.table <==> exists k :: k in inner && inner[k].region.Has(p))
            && (forall i, j :: i in inner && j in inner && inner[i].region.Has(p) && inner[j].region.Has(p) ==> i == j)
            && (forall k :: k in inner && inner[k].region.Has(p) ==>
                  p in s.table && s.table[p].flags == inner[k].attrs.flags)
            && (forall b :: InHole(s.grants.holes, b) <==> 0 <= b < USER_END && !Covered(inner, b))
            && (forall i, j :: i in s.grants.holes && j in s.grants.holes && i < j ==> i + s.grants.holes[i] < j)
  {
    TableMatchesGrants(StateAfter(ops), p);
  }
}
