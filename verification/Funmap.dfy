// File mappings served by a user scheme: the third table beside grants and page table, which maps
// client regions back to addresses in the scheme. Models the fmap reply in
// `UserInner::handle_packet`, `UserScheme::funmap` and the notifications sent by munmap.
module FileMappings {
  import opened Regions
  import opened Ordered
  import opened Grants
  import opened AddressSpaces

  // size of the client region, address of its first byte in the scheme
  datatype FunEntry = FunEntry(size: nat, addr: nat)

  // start of the client region -> entry
  type Funmap = map<nat, FunEntry>

  ghost predicate Disjoint(fm: Funmap) {
    && (forall k :: k in fm ==> fm[k].size > 0)
    && (forall i, j :: i in fm && j in fm && i < j ==> i + fm[i].size <= j)
  }

  function EntryRegion(fm: Funmap, k: nat): Region
    requires k in fm
  {
    Region(k, fm[k].size)
  }

  ghost predicate Listed(fm: Funmap, b: int) {
    exists k :: k in fm && EntryRegion(fm, k).Has(b)
  }

  // `b` is listed, at address `a` of the scheme.
  ghost predicate ServedAt(fm: Funmap, b: int, a: int) {
    exists k :: k in fm && EntryRegion(fm, k).Has(b) && a == fm[k].addr + (b - k)
  }

  // All of `r` lies in one entry.
  ghost predicate InOneEntry(fm: Funmap, r: Region) {
    exists k :: k in fm && k <= r.start && r.End() <= EntryRegion(fm, k).End()
  }

  /// UserScheme::funmap

  // Returns the address sent to the scheme, and the table after the split.
  function FunmapCall(fm: Funmap, address: nat, size: nat): (r: (Result<nat>, Funmap)) {
    var entry := Floor(fm.Keys, address);
    if entry.None? then (Err(EINVAL), fm) else
      var grant := EntryRegion(fm, entry.value);
      var requested := Region(address, size);
      if requested.End() > grant.End() then (Err(EINVAL), fm) else
        var base := fm[entry.value].addr;
        var user := Region(base, grant.size);
        var before := grant.Before(requested);
        var after := grant.After(requested);
        var fm1 := fm - {grant.start};
        var fm2 := if before.None? then fm1 else fm1[before.value.start := FunEntry(before.value.size, base)];
        var fm3 := if after.None? then fm2
          else fm2[after.value.start := FunEntry(after.value.size, grant.Rebase(user, after.value.start))];
        (Ok(grant.Rebase(user, address)), fm3)
  }

  // The entry that holds a listed stretch is the one the lookup finds.
  lemma LookupFinds(fm: Funmap, r: Region, k: nat)
    requires Disjoint(fm) && r.size > 0 && k in fm && k <= r.start && r.End() <= EntryRegion(fm, k).End()
    ensures Floor(fm.Keys, r.start) == Some(k)
  {
  }

  lemma FunmapCallKeys(fm: Funmap, r: Region, k: nat)
    requires Disjoint(fm) && r.size > 0 && k in fm && k <= r.start && r.End() <= EntryRegion(fm, k).End()
    ensures var n := FunmapCall(fm, r.start, r.size).1; var e := fm[k]; var end := k + e.size;
            && (forall j :: j in n <==>
                  (j in fm && j != k) || (j == k && k < r.start) || (j == r.End() && r.End() < end))
            && (forall j :: j in fm && j != k ==> n[j] == fm[j])
            && (k < r.start ==> n[k] == FunEntry(r.start - k, e.addr))
            && (r.End() < end ==> n[r.End()] == FunEntry(end - r.End(), e.addr + (r.End() - k)))
  {
    LookupFinds(fm, r, k);
  }

  lemma FunmapCallSends(fm: Funmap, r: Region, k: nat)
    requires Disjoint(fm) && r.size > 0 && k in fm && k <= r.start && r.End() <= EntryRegion(fm, k).End()
    ensures FunmapCall(fm, r.start, r.size).0 == Ok(fm[k].addr + (r.start - k))
  {
  }

  lemma StillServed(fm: Funmap, r: Region, k: nat, b: int, a: int)
    requires Disjoint(fm) && r.size > 0 && k in fm && k <= r.start && r.End() <= EntryRegion(fm, k).End()
    requires ServedAt(fm, b, a) && !r.Has(b)
    ensures ServedAt(FunmapCall(fm, r.start, r.size).1, b, a)
  {
    FunmapCallKeys(fm, r, k);
    hide FunmapCall;
    var n := FunmapCall(fm, r.start, r.size).1;
    var j :| j in fm && EntryRegion(fm, j).Has(b) && a == fm[j].addr + (b - j);
    var w := if j == k && r.End() <= b then r.End() else j;
    assert w in n && EntryRegion(n, w).Has(b) && a == n[w].addr + (b - w);
  }

  lemma ServedBefore(fm: Funmap, r: Region, k: nat, b: int, a: int)
    requires Disjoint(fm) && r.size > 0 && k in fm && k <= r.start && r.End() <= EntryRegion(fm, k).End()
    requires ServedAt(FunmapCall(fm, r.start, r.size).1, b, a)
    ensures ServedAt(fm, b, a) && !r.Has(b)
  {
    FunmapCallKeys(fm, r, k);
    hide FunmapCall;
    var n := FunmapCall(fm, r.start, r.size).1;
    var j :| j in n && EntryRegion(n, j).Has(b) && a == n[j].addr + (b - j);
    var w := if j in fm then j else k;
    assert w in fm && EntryRegion(fm, w).Has(b) && a == fm[w].addr + (b - w);
  }

  lemma FunmapCallDisjoint(fm: Funmap, r: Region, k: nat)
    requires Disjoint(fm) && r.size > 0 && k in fm && k <= r.start && r.End() <= EntryRegion(fm, k).End()
    ensures Disjoint(FunmapCall(fm, r.start, r.size).1)
  {
    hide FunmapCall;
    FunmapCallKeys(fm, r, k);
  }

  // A call on a stretch inside one entry succeeds with the scheme address of its first byte,
  // unlists exactly that stretch and moves no other byte.
  lemma FunmapCallExact(fm: Funmap, r: Region)
    requires Disjoint(fm) && r.size > 0 && InOneEntry(fm, r)
    ensures var (sent, n) := FunmapCall(fm, r.start, r.size);
            && sent.Ok? && Disjoint(n)
            && (forall b :: r.Has(b) ==> ServedAt(fm, b, sent.value + (b - r.start)))
            && (forall b, a :: ServedAt(n, b, a) <==> ServedAt(fm, b, a) && !r.Has(b))
  {
    hide FunmapCall;
    var k :| k in fm && k <= r.start && r.End() <= EntryRegion(fm, k).End();
    var (sent, n) := FunmapCall(fm, r.start, r.size);
    FunmapCallSends(fm, r, k);
    forall b | r.Has(b)
      ensures ServedAt(fm, b, sent.value + (b - r.start))
    {
      assert EntryRegion(fm, k).Has(b);
    }
    FunmapCallDisjoint(fm, r, k);
    forall b, a
      ensures ServedAt(n, b, a) <==> ServedAt(fm, b, a) && !r.Has(b)
    {
      if ServedAt(n, b, a) { ServedBefore(fm, r, k, b, a); }
      if ServedAt(fm, b, a) && !r.Has(b) { StillServed(fm, r, k, b, a); }
    }
  }

  // A stretch that avoids the unlisted one stays inside one entry.
  lemma FunmapCallKeeps(fm: Funmap, r: Region, other: Region)
    requires Disjoint(fm) && r.size > 0 && InOneEntry(fm, r)
    requires other.size > 0 && InOneEntry(fm, other) && (other.End() <= r.start || r.End() <= other.start)
    ensures InOneEntry(FunmapCall(fm, r.start, r.size).1, other)
  {
    var k :| k in fm && k <= r.start && r.End() <= EntryRegion(fm, k).End();
    FunmapCallKeys(fm, r, k);
    var n := FunmapCall(fm, r.start, r.size).1;
    var j :| j in fm && j <= other.start && other.End() <= EntryRegion(fm, j).End();
    var w := if j == k && r.End() <= other.start then r.End() else j;
    assert w in n && w <= other.start && other.End() <= EntryRegion(n, w).End();
  }

  /// The notifications of one munmap

  ghost predicate Queued(fm: Funmap, notes: seq<(FileRef, Region)>) {
    && Disjoint(fm)
    && (forall i :: 0 <= i < |notes| ==> notes[i].1.size > 0 && InOneEntry(fm, notes[i].1))
    && (forall i, j :: 0 <= i < j < |notes| ==> notes[i].1.End() <= notes[j].1.start)
  }

  ghost predicate InNotes(notes: seq<(FileRef, Region)>, b: int) {
    exists i :: 0 <= i < |notes| && notes[i].1.Has(b)
  }

  function NotifyAll(fm: Funmap, notes: seq<(FileRef, Region)>): (r: (seq<Result<nat>>, Funmap))
    ensures |r.0| == |notes|
    decreases |notes|
  {
    if notes == [] then ([], fm) else
      var (sent, fm1) := FunmapCall(fm, notes[0].1.start, notes[0].1.size);
      var (rest, fm2) := NotifyAll(fm1, notes[1..]);
      ([sent] + rest, fm2)
  }

  lemma QueuedNext(fm: Funmap, notes: seq<(FileRef, Region)>)
    requires Queued(fm, notes) && notes != []
    ensures Queued(FunmapCall(fm, notes[0].1.start, notes[0].1.size).1, notes[1..])
  {
    hide FunmapCall, InOneEntry, Disjoint;
    FunmapCallExact(fm, notes[0].1);
    forall i | 0 <= i < |notes[1..]|
      ensures InOneEntry(FunmapCall(fm, notes[0].1.start, notes[0].1.size).1, notes[1..][i].1)
    {
      assert notes[1..][i] == notes[i + 1];
      FunmapCallKeeps(fm, notes[0].1, notes[i + 1].1);
    }
  }

  // Every queued call succeeds with original scheme addresses, and together they unlist exactly
  // the queued bytes.
  lemma NotifyAllExact(fm: Funmap, notes: seq<(FileRef, Region)>)
    requires Queued(fm, notes)
    ensures var (sent, n) := NotifyAll(fm, notes);
            && Disjoint(n)
            && (forall i, b :: 0 <= i < |notes| && notes[i].1.Has(b) ==>
                  sent[i].Ok? && ServedAt(fm, b, sent[i].value + (b - notes[i].1.start)))
            && (forall b, a :: ServedAt(n, b, a) <==> ServedAt(fm, b, a) && !InNotes(notes, b))
  {
    hide InOneEntry, ServedAt, Disjoint, NotifyAll;
    NotifyAnyExact(fm, notes);
    assert forall b :: Hit(fm, notes, b) <==> InNotes(notes, b);
  }

  lemma {:induction false} NotifyAllKeeps(fm: Funmap, notes: seq<(FileRef, Region)>, other: Region)
    requires Queued(fm, notes) && other.size > 0 && InOneEntry(fm, other)
    requires forall i :: 0 <= i < |notes| ==> other.End() <= notes[i].1.start || notes[i].1.End() <= other.start
    ensures InOneEntry(NotifyAll(fm, notes).1, other)
    decreases |notes|
  {
    hide FunmapCall, InOneEntry, Disjoint;
    if notes != [] {
      QueuedNext(fm, notes);
      FunmapCallKeeps(fm, notes[0].1, other);
      NotifyAllKeeps(FunmapCall(fm, notes[0].1.start, notes[0].1.size).1, notes[1..], other);
    }
  }

  /// Grants only ever get smaller

  // `g` is a part of some grant of `inner`, with the same file.
  ghost predicate PartOf(g: Grant, inner: Inner) {
    exists j :: && j in inner && inner[j].attrs.desc == g.attrs.desc
                && inner[j].region.start <= g.region.start && g.region.End() <= inner[j].region.End()
  }

  ghost predicate Refines(after: Inner, before: Inner) {
    forall k :: k in after ==> PartOf(after[k], before)
  }

  lemma RefinesTrans(a: Inner, b: Inner, c: Inner)
    requires Refines(a, b) && Refines(b, c)
    ensures Refines(a, c)
  {
  }

  lemma PartOfSelf(inner: Inner, k: nat)
    requires k in inner
    ensures PartOf(inner[k], inner)
  {
  }

  lemma CarveRefines(u: UserGrants, k: nat, piece: Region)
    requires CanCarve(u, k, piece)
    ensures Refines(Carve(u, k, piece).inner, u.inner)
  {
    hide AttrsAt, WellFormed;
    var n := Carve(u, k, piece).inner;
    var parts := u.inner[k].Extract(piece);
    forall j | j in n
      ensures PartOf(n[j], u.inner)
    {
      if j in u.inner && n[j] == u.inner[j] {
        PartOfSelf(u.inner, j);
      } else {
        assert k in u.inner && n[j].attrs.desc == u.inner[k].attrs.desc;
        assert u.inner[k].region.start <= n[j].region.start && n[j].region.End() <= u.inner[k].region.End();
      }
    }
  }

  lemma RefitRefines(u: UserGrants, k: nat, piece: Region, a: Attrs)
    requires CanCarve(u, k, piece) && a.desc == u.inner[k].attrs.desc
    ensures Refines(Refit(u, k, piece, a).inner, u.inner)
  {
    hide AttrsAt, WellFormed, Carve;
    CarveRefines(u, k, piece);
    var n := Refit(u, k, piece, a).inner;
    forall j | j in n
      ensures PartOf(n[j], u.inner)
    {
      if j == piece.start {
        assert k in u.inner && n[j] == Grant(piece, a);
      }
    }
  }

  lemma {:induction false} MunmapLoopRefines(u: UserGrants, table: Table, todo: seq<nat>, requested: Region)
    requires Pending(u, todo, requested)
    ensures Refines(MunmapLoop(u, table, todo, requested).grants.inner, u.inner)
    decreases |todo|
  {
    hide Carve, PagesIn, UserGrants.Valid, CanCarve, Refines;
    if todo == [] {
      RefinesSelf(u.inner);
    } else {
      PieceExact(u, todo, requested);
      CarvePending(u, todo, requested);
      var piece := Piece(u, todo[0], requested);
      var next := Carve(u, todo[0], piece);
      MunmapLoopRefines(next, table - PagesIn(piece), todo[1..], requested);
      CarveRefines(u, todo[0], piece);
      RefinesTrans(MunmapLoop(u, table, todo, requested).grants.inner, next.inner, u.inner);
    }
  }

  lemma RefinesSelf(inner: Inner)
    ensures Refines(inner, inner)
  {
  }

  lemma {:induction false} MprotectLoopRefines(
    u: UserGrants, table: Table, todo: seq<nat>, requested: Region, flags: MapFlags
  )
    requires Pending(u, todo, requested)
    ensures Refines(MprotectLoop(u, table, todo, requested, flags).grants.inner, u.inner)
    decreases |todo|
  {
    hide Refit, PagesIn, RemapPages, UserGrants.Valid, CanCarve, Refines;
    if todo == [] {
      RefinesSelf(u.inner);
    } else {
      PieceExact(u, todo, requested);
      var k := todo[0];
      var piece := Piece(u, k, requested);
      var attrs := u.inner[k].attrs;
      if attrs.CanHaveFlags(flags) {
        var changed := attrs.Protect(flags);
        RefitPending(u, todo, requested, changed);
        var next := Refit(u, k, piece, changed);
        MprotectLoopRefines(next, RemapPages(table, PagesIn(piece), changed.flags), todo[1..], requested, flags);
        RefitRefines(u, k, piece, changed);
        RefinesTrans(MprotectLoop(u, table, todo, requested, flags).grants.inner, next.inner, u.inner);
      } else {
        RefitRefines(u, k, piece, attrs);
      }
    }
  }

  /// Clients of user schemes

  // `origin` records, for the statement only, where each fmap call put each byte in its scheme.
  datatype Client = Client(space: Space, funmap: Funmap, origin: map<int, nat>) {
    ghost predicate FileBacked(b: int) {
      AttrsAt(space.grants.inner, b).Some? && AttrsAt(space.grants.inner, b).value.desc.Some?
    }

    // The table lists exactly the bytes of the file-backed grants, each at its original scheme
    // address, and no grant straddles two entries.
    ghost predicate Tracks() {
      && space.Valid() && Disjoint(funmap)
      && (forall k :: k in space.grants.inner && space.grants.inner[k].attrs.desc.Some? ==>
            InOneEntry(funmap, space.grants.inner[k].region))
      && (forall b, a :: ServedAt(funmap, b, a) <==> b in origin && origin[b] == a)
      && (forall b :: b in origin <==> FileBacked(b))
    }
  }

  const NEW_CLIENT: Client := Client(NEW_SPACE, map[], map[])

  lemma NewClientTracks()
    ensures NEW_CLIENT.Tracks()
  {
    NewSpaceValid();
  }

  /// munmap on the current space

  lemma NotesQueued(c: Client, page: nat, count: nat)
    requires c.Tracks()
    ensures var requested := Region(page * PAGE_SIZE, count * PAGE_SIZE);
            var notes := Munmap(c.space, page, count).1;
            && Queued(c.funmap, notes)
            && (forall b :: InNotes(notes, b) <==> requested.Has(b) && c.FileBacked(b))
  {
    hide Munmap, AttrsAt, ServedAt, Space.Valid;
    var requested := Region(page * PAGE_SIZE, count * PAGE_SIZE);
    var inner := c.space.grants.inner;
    var filed := MunmapNotifiesOnce(c.space, page, count);
    var notes := Munmap(c.space, page, count).1;
    assert WellFormed(inner) by { ValidParts(c.space); }
    forall i | 0 <= i < |notes|
      ensures notes[i].1.size > 0 && InOneEntry(c.funmap, notes[i].1)
    {
      assert filed[i] in filed;
      NarrowEntry(c.funmap, inner[filed[i]].region, notes[i].1);
    }
    forall i, j | 0 <= i < j < |notes|
      ensures notes[i].1.End() <= notes[j].1.start
    {
      assert filed[i] in filed && filed[j] in filed;
    }
    forall b
      ensures InNotes(notes, b) <==> requested.Has(b) && c.FileBacked(b)
    {
      NoteBytes(c, filed, requested, notes, b);
    }
  }

  lemma NarrowEntry(fm: Funmap, wide: Region, r: Region)
    requires InOneEntry(fm, wide) && wide.start <= r.start && r.End() <= wide.End()
    ensures InOneEntry(fm, r)
  {
    var k :| k in fm && k <= wide.start && wide.End() <= EntryRegion(fm, k).End();
    assert k in fm && k <= r.start && r.End() <= EntryRegion(fm, k).End();
  }

  lemma NoteBytes(c: Client, filed: seq<nat>, requested: Region, notes: seq<(FileRef, Region)>, b: int)
    requires WellFormed(c.space.grants.inner) && Notes(c.space.grants.inner, filed, requested, notes)
    requires var inner := c.space.grants.inner;
             forall k :: k in filed <==> k in inner && inner[k].attrs.desc.Some? && Overlaps(inner[k].region, requested)
    ensures InNotes(notes, b) <==> requested.Has(b) && c.FileBacked(b)
  {
    hide Overlaps, AttrsAt;
    var inner := c.space.grants.inner;
    if InNotes(notes, b) {
      var i :| 0 <= i < |notes| && notes[i].1.Has(b);
      AttrsAtKey(inner, filed[i], b);
    }
    if requested.Has(b) && c.FileBacked(b) {
      assert Covered(inner, b) by { if !Covered(inner, b) { UncoveredAttrs(inner, b); } }
      var k :| k in inner && inner[k].region.Has(b);
      AttrsAtKey(inner, k, b);
      OverlapByte(inner[k].region, requested, b);
      var i :| 0 <= i < |filed| && filed[i] == k;
      assert notes[i].1.Has(b);
    }
  }

  function Unmap(c: Client, page: nat, count: nat): (r: (Client, seq<Result<nat>>))
    requires c.Tracks()
  {
    var requested := Region(page * PAGE_SIZE, count * PAGE_SIZE);
    var (space, notes) := Munmap(c.space, page, count);
    var (sent, funmap) := NotifyAll(c.funmap, notes);
    (Client(space, funmap, map b | b in c.origin && !requested.Has(b) :: c.origin[b]), sent)
  }

  // No lookup made by munmap fails, and what each scheme is told is where the unmapped bytes
  // originally came from, however often grants and entries were split before.
  lemma UnmapSendsOriginalAddresses(c: Client, page: nat, count: nat, i: nat, b: int)
    requires c.Tracks() && i < |Munmap(c.space, page, count).1| && Munmap(c.space, page, count).1[i].1.Has(b)
    ensures var sent := Unmap(c, page, count).1[i]; var part := Munmap(c.space, page, count).1[i].1;
            sent.Ok? && b in c.origin && c.origin[b] == sent.value + (b - part.start)
  {
    hide Munmap, NotifyAll, ServedAt, InOneEntry, Queued;
    NotesQueued(c, page, count);
    NotifyAllExact(c.funmap, Munmap(c.space, page, count).1);
  }

  lemma MunmapRefines(s: Space, page: nat, count: nat)
    requires s.Valid()
    ensures Refines(Munmap(s, page, count).0.grants.inner, s.grants.inner)
  {
    hide AttrsAt, MunmapLoop, Refines;
    var requested := Region(page * PAGE_SIZE, count * PAGE_SIZE);
    MunmapLoopRefines(s.grants, s.table, Conflicts(s.grants.inner, requested), requested);
  }

  lemma SurvivorNotEmpty(s: Space, k: nat)
    requires s.Valid() && k in s.grants.inner
    ensures s.grants.inner[k].region.size > 0
  {
  }

  lemma MprotectRefines(s: Space, base: nat, pages: nat, prot: MapFlags)
    requires s.Valid()
    ensures Refines(Mprotect(s, base, pages, prot).0.grants.inner, s.grants.inner)
  {
    hide AttrsAt, MprotectLoop, Refines;
    var requested := Region(base * PAGE_SIZE, pages * PAGE_SIZE);
    MprotectLoopRefines(s.grants, s.table, Conflicts(s.grants.inner, requested), requested, prot);
  }

  // A grant that survived is part of an old one, and so still in one entry before the notifications.
  lemma SurvivorEntry(c: Client, page: nat, count: nat, k: nat)
    requires c.Tracks() && k in Munmap(c.space, page, count).0.grants.inner
    requires Munmap(c.space, page, count).0.grants.inner[k].attrs.desc.Some?
    ensures InOneEntry(c.funmap, Munmap(c.space, page, count).0.grants.inner[k].region)
  {
    hide AttrsAt, ServedAt, Munmap, InOneEntry, Space.Valid;
    var inner := c.space.grants.inner;
    var g := Munmap(c.space, page, count).0.grants.inner[k];
    MunmapRefines(c.space, page, count);
    assert PartOf(g, inner);
    var j :| && j in inner && inner[j].attrs.desc == g.attrs.desc
             && inner[j].region.start <= g.region.start && g.region.End() <= inner[j].region.End();
    NarrowEntry(c.funmap, inner[j].region, g.region);
  }

  lemma UnmapEntries(c: Client, page: nat, count: nat, k: nat)
    requires c.Tracks() && k in Munmap(c.space, page, count).0.grants.inner
    requires Munmap(c.space, page, count).0.grants.inner[k].attrs.desc.Some?
    ensures InOneEntry(Unmap(c, page, count).0.funmap, Munmap(c.space, page, count).0.grants.inner[k].region)
  {
    hide AttrsAt, NotifyAll, ServedAt, Munmap, InOneEntry, Queued, Space.Valid;
    var (t, notes) := Munmap(c.space, page, count);
    var g := t.grants.inner[k];
    MunmapExact(c.space, page, count);
    SurvivorNotEmpty(t, k);
    SurvivorEntry(c, page, count, k);
    NotesQueued(c, page, count);
    forall i | 0 <= i < |notes|
      ensures g.region.End() <= notes[i].1.start || notes[i].1.End() <= g.region.start
    {
      NoteAvoids(c, page, count, k, i);
    }
    NotifyAllKeeps(c.funmap, notes, g.region);
  }

  // A grant that survived shares no byte with what was unmapped.
  lemma NoteAvoids(c: Client, page: nat, count: nat, k: nat, i: nat)
    requires c.Tracks() && k in Munmap(c.space, page, count).0.grants.inner && i < |Munmap(c.space, page, count).1|
    ensures var g := Munmap(c.space, page, count).0.grants.inner[k].region;
              var note := Munmap(c.space, page, count).1[i].1;
            g.End() <= note.start || note.End() <= g.start
  {
    hide AttrsAt, Munmap, ServedAt, InOneEntry;
    var t := Munmap(c.space, page, count).0;
    var notes := Munmap(c.space, page, count).1;
    MunmapExact(c.space, page, count);
    NotesQueued(c, page, count);
    var g := t.grants.inner[k].region;
    var note := notes[i].1;
    var b := if g.start < note.start then note.start else g.start;
    assert note.Has(b) ==> InNotes(notes, b);
    if g.Has(b) {
      AttrsAtKey(t.grants.inner, k, b);
    }
  }

  lemma UnmapTracks(c: Client, page: nat, count: nat)
    requires c.Tracks()
    ensures Unmap(c, page, count).0.Tracks()
  {
    hide AttrsAt, Munmap, NotifyAll, ServedAt, InOneEntry, Space.Valid;
    var d := Unmap(c, page, count).0;
    MunmapExact(c.space, page, count);
    NotesQueued(c, page, count);
    NotifyAllExact(c.funmap, Munmap(c.space, page, count).1);
    forall k | k in d.space.grants.inner && d.space.grants.inner[k].attrs.desc.Some?
      ensures InOneEntry(d.funmap, d.space.grants.inner[k].region)
    {
      UnmapEntries(c, page, count, k);
    }
  }

  /// munmap on another space

  // The notifications go to the table of the current context. Unmapping another space therefore
  // leaves its own table as it was, which stays exact iff the request holds no file-backed byte.
  lemma ForeignUnmapExactIff(c: Client, page: nat, count: nat)
    requires c.Tracks()
    ensures var requested := Region(page * PAGE_SIZE, count * PAGE_SIZE);
            var d := c.(space := Munmap(c.space, page, count).0);
            (forall b :: Listed(c.funmap, b) <==> d.FileBacked(b)) <==>
              (forall b :: requested.Has(b) ==> !c.FileBacked(b))
  {
    hide AttrsAt, Munmap, ServedAt, Listed, InOneEntry, Space.Valid, Client.FileBacked;
    var requested := Region(page * PAGE_SIZE, count * PAGE_SIZE);
    var d := c.(space := Munmap(c.space, page, count).0);
    forall b
      ensures Listed(c.funmap, b) <==> c.FileBacked(b)
      ensures d.FileBacked(b) <==> c.FileBacked(b) && !requested.Has(b)
    {
      TracksListed(c, b);
      UnmappedFileBacked(c, page, count, b);
    }
  }

  lemma TracksListed(c: Client, b: int)
    requires c.Tracks()
    ensures Listed(c.funmap, b) <==> c.FileBacked(b)
  {
    hide AttrsAt, Space.Valid, InOneEntry;
    if Listed(c.funmap, b) {
      var k :| k in c.funmap && EntryRegion(c.funmap, k).Has(b);
      assert ServedAt(c.funmap, b, c.funmap[k].addr + (b - k));
    }
    if c.FileBacked(b) {
      assert ServedAt(c.funmap, b, c.origin[b]);
    }
  }

  lemma UnmappedFileBacked(c: Client, page: nat, count: nat, b: int)
    requires c.space.Valid()
    ensures c.(space := Munmap(c.space, page, count).0).FileBacked(b) <==>
            c.FileBacked(b) && !Region(page * PAGE_SIZE, count * PAGE_SIZE).Has(b)
  {
    hide AttrsAt, Munmap;
    MunmapExact(c.space, page, count);
  }

  // Notifications for any table, whether it lists their stretches or not.
  ghost predicate InOrder(fm: Funmap, notes: seq<(FileRef, Region)>) {
    && Disjoint(fm)
    && (forall i :: 0 <= i < |notes| ==> notes[i].1.size > 0)
    && (forall i, j :: 0 <= i < j < |notes| ==> notes[i].1.End() <= notes[j].1.start)
  }

  // A call succeeds iff its stretch lies in one entry; otherwise nothing changes.
  lemma FunmapCallIff(fm: Funmap, r: Region)
    requires Disjoint(fm) && r.size > 0
    ensures var (sent, n) := FunmapCall(fm, r.start, r.size);
            if InOneEntry(fm, r) then sent.Ok? else sent == Err(EINVAL) && n == fm
  {
    if InOneEntry(fm, r) {
      FunmapCallExact(fm, r);
    } else {
      var k := Floor(fm.Keys, r.start);
      assert k.Some? ==> !(r.End() <= EntryRegion(fm, k.value).End());
    }
  }

  // The entries left are parts of the old ones.
  lemma FunmapCallNarrows(fm: Funmap, r: Region, other: Region)
    requires Disjoint(fm) && r.size > 0 && InOneEntry(fm, r) && InOneEntry(FunmapCall(fm, r.start, r.size).1, other)
    ensures InOneEntry(fm, other)
  {
    hide FunmapCall;
    var k :| k in fm && k <= r.start && r.End() <= EntryRegion(fm, k).End();
    FunmapCallKeys(fm, r, k);
    var n := FunmapCall(fm, r.start, r.size).1;
    var j :| j in n && j <= other.start && other.End() <= EntryRegion(n, j).End();
    var w := if j in fm && j != k then j else k;
    assert w in fm && w <= other.start && other.End() <= EntryRegion(fm, w).End();
  }

  // The byte is in a note that the table can serve.
  ghost predicate Hit(fm: Funmap, notes: seq<(FileRef, Region)>, b: int) {
    exists i :: 0 <= i < |notes| && notes[i].1.Has(b) && InOneEntry(fm, notes[i].1)
  }

  lemma HitSplit(fm: Funmap, fm1: Funmap, notes: seq<(FileRef, Region)>, b: int)
    requires notes != []
    requires forall i :: 1 <= i < |notes| ==> (InOneEntry(fm1, notes[i].1) <==> InOneEntry(fm, notes[i].1))
    ensures Hit(fm, notes, b) <==> (notes[0].1.Has(b) && InOneEntry(fm, notes[0].1)) || Hit(fm1, notes[1..], b)
  {
    hide InOneEntry;
    if Hit(fm1, notes[1..], b) {
      var i :| 0 <= i < |notes[1..]| && notes[1..][i].1.Has(b) && InOneEntry(fm1, notes[1..][i].1);
      assert notes[i + 1].1.Has(b) && InOneEntry(fm, notes[i + 1].1);
    }
    if Hit(fm, notes, b) && !(notes[0].1.Has(b) && InOneEntry(fm, notes[0].1)) {
      var i :| 0 <= i < |notes| && notes[i].1.Has(b) && InOneEntry(fm, notes[i].1);
      assert notes[1..][i - 1].1.Has(b) && InOneEntry(fm1, notes[1..][i - 1].1);
    }
  }

  lemma InOrderNext(fm: Funmap, notes: seq<(FileRef, Region)>)
    requires InOrder(fm, notes) && notes != []
    ensures var fm1 := FunmapCall(fm, notes[0].1.start, notes[0].1.size).1;
            && InOrder(fm1, notes[1..])
            && (forall i :: 1 <= i < |notes| ==> (InOneEntry(fm1, notes[i].1) <==> InOneEntry(fm, notes[i].1)))
            && (forall b, a :: ServedAt(fm1, b, a) <==>
                  ServedAt(fm, b, a) && !(notes[0].1.Has(b) && InOneEntry(fm, notes[0].1)))
  {
    hide FunmapCall, InOneEntry, ServedAt, Disjoint;
    FunmapCallIff(fm, notes[0].1);
    if InOneEntry(fm, notes[0].1) {
      FunmapCallExact(fm, notes[0].1);
      var fm1 := FunmapCall(fm, notes[0].1.start, notes[0].1.size).1;
      forall i | 1 <= i < |notes|
        ensures InOneEntry(fm1, notes[i].1) <==> InOneEntry(fm, notes[i].1)
      {
        if InOneEntry(fm1, notes[i].1) {
          FunmapCallNarrows(fm, notes[0].1, notes[i].1);
        }
        if InOneEntry(fm, notes[i].1) {
          FunmapCallKeeps(fm, notes[0].1, notes[i].1);
        }
      }
    }
  }

  // Each call succeeds iff the table it goes to has the stretch in one entry. It then sends where that
  // table has the stretch, whosever grant it was, and unlists it there.
  lemma {:induction false} NotifyAnyExact(fm: Funmap, notes: seq<(FileRef, Region)>)
    requires InOrder(fm, notes)
    ensures var (sent, n) := NotifyAll(fm, notes);
            && Disjoint(n)
            && (forall i :: 0 <= i < |notes| ==> SentRight(fm, notes[i].1, sent[i]))
            && (forall b, a :: ServedAt(n, b, a) <==> ServedAt(fm, b, a) && !Hit(fm, notes, b))
    decreases |notes|
  {
    hide FunmapCall, InOneEntry, ServedAt, Disjoint, Hit, SentRight;
    if notes == [] {
      NoHits(fm);
    } else {
      var (first, fm1) := FunmapCall(fm, notes[0].1.start, notes[0].1.size);
      InOrderNext(fm, notes);
      FirstSentRight(fm, notes[0].1);
      NotifyAnyExact(fm1, notes[1..]);
      forall b
        ensures Hit(fm, notes, b) <==> (notes[0].1.Has(b) && InOneEntry(fm, notes[0].1)) || Hit(fm1, notes[1..], b)
      {
        HitSplit(fm, fm1, notes, b);
      }
      var rest := NotifyAll(fm1, notes[1..]).0;
      forall i | 1 <= i < |notes|
        ensures SentRight(fm, notes[i].1, rest[i - 1])
      {
        assert notes[1..][i - 1] == notes[i];
        LaterSentRight(fm, fm1, notes[i].1, rest[i - 1]);
      }
    }
  }

  // A call answers with where the table has the stretch iff it has it in one entry.
  ghost predicate SentRight(fm: Funmap, r: Region, sent: Result<nat>) {
    && (sent.Ok? <==> InOneEntry(fm, r))
    && (sent.Ok? ==> forall b :: r.Has(b) ==> ServedAt(fm, b, sent.value + (b - r.start)))
  }

  lemma FirstSentRight(fm: Funmap, r: Region)
    requires Disjoint(fm) && r.size > 0
    ensures SentRight(fm, r, FunmapCall(fm, r.start, r.size).0)
  {
    hide FunmapCall, InOneEntry, ServedAt, Disjoint;
    FunmapCallIff(fm, r);
    if InOneEntry(fm, r) {
      FunmapCallExact(fm, r);
    }
  }

  lemma LaterSentRight(fm: Funmap, fm1: Funmap, r: Region, sent: Result<nat>)
    requires SentRight(fm1, r, sent) && (InOneEntry(fm1, r) <==> InOneEntry(fm, r))
    requires forall b, a :: ServedAt(fm1, b, a) ==> ServedAt(fm, b, a)
    ensures SentRight(fm, r, sent)
  {
    hide InOneEntry, ServedAt;
  }

  lemma NoHits(fm: Funmap)
    ensures forall b :: !Hit(fm, [], b)
  {
  }

  // The table that is notified instead, of the current context `me`: it stays exact iff no stretch unmapped
  // from the other space lies in one of its entries. Otherwise a scheme is told to unmap what `me` still has.
  lemma ForeignUnmapSpoilsIff(c: Client, page: nat, count: nat, me: Client)
    requires c.Tracks() && me.Tracks()
    ensures var notes := Munmap(c.space, page, count).1;
            var (sent, n) := NotifyAll(me.funmap, notes);
            && (n == me.funmap <==> forall i :: 0 <= i < |notes| ==> !InOneEntry(me.funmap, notes[i].1))
            && (n == me.funmap <==> forall b :: Listed(n, b) <==> me.FileBacked(b))
            && (forall i, b :: 0 <= i < |notes| && notes[i].1.Has(b) && sent[i].Ok? ==>
                  b in me.origin && sent[i].value + (b - notes[i].1.start) == me.origin[b])
  {
    hide Munmap, NotifyAll, ServedAt, Listed, InOneEntry, AttrsAt, Space.Valid, Disjoint, Hit, Client.FileBacked;
    var notes := Munmap(c.space, page, count).1;
    NotesQueued(c, page, count);
    NotifyAnyExact(me.funmap, notes);
    var n := NotifyAll(me.funmap, notes).1;
    forall b
      ensures Listed(me.funmap, b) <==> me.FileBacked(b)
      ensures Listed(n, b) <==> Listed(me.funmap, b) && !Hit(me.funmap, notes, b)
    {
      TracksListed(me, b);
      ListedServed(me.funmap, b);
      ListedServed(n, b);
    }
    if exists i :: 0 <= i < |notes| && InOneEntry(me.funmap, notes[i].1) {
      var i :| 0 <= i < |notes| && InOneEntry(me.funmap, notes[i].1);
      var b := notes[i].1.start;
      HitIsListed(me.funmap, notes, i, b);
      assert Listed(me.funmap, b) && !Listed(n, b);
    } else {
      NotifyNone(me.funmap, notes);
    }
  }

  lemma ListedServed(fm: Funmap, b: int)
    ensures Listed(fm, b) <==> exists a :: ServedAt(fm, b, a)
  {
    if Listed(fm, b) {
      var k :| k in fm && EntryRegion(fm, k).Has(b);
      assert ServedAt(fm, b, fm[k].addr + (b - k));
    }
  }

  lemma HitIsListed(fm: Funmap, notes: seq<(FileRef, Region)>, i: nat, b: int)
    requires i < |notes| && notes[i].1.Has(b) && InOneEntry(fm, notes[i].1)
    ensures Hit(fm, notes, b) && Listed(fm, b)
  {
    var k :| k in fm && k <= notes[i].1.start && notes[i].1.End() <= EntryRegion(fm, k).End();
    assert EntryRegion(fm, k).Has(b);
  }

  lemma {:induction false} NotifyNone(fm: Funmap, notes: seq<(FileRef, Region)>)
    requires InOrder(fm, notes) && forall i :: 0 <= i < |notes| ==> !InOneEntry(fm, notes[i].1)
    ensures NotifyAll(fm, notes).1 == fm
    decreases |notes|
  {
    hide FunmapCall, InOneEntry, Disjoint;
    if notes != [] {
      FunmapCallIff(fm, notes[0].1);
      NotifyNone(fm, notes[1..]);
    }
  }

  /// mprotect and mmap

  function Protect(c: Client, base: nat, pages: nat, prot: MapFlags): Client
    requires c.Tracks()
  {
    c.(space := Mprotect(c.space, base, pages, prot).0)
  }

  lemma ProtectTracks(c: Client, base: nat, pages: nat, prot: MapFlags)
    requires c.Tracks()
    ensures Protect(c, base, pages, prot).Tracks()
  {
    hide AttrsAt, Mprotect, ServedAt, Space.Valid, InOneEntry;
    var inner := c.space.grants.inner;
    var t := Protect(c, base, pages, prot).space;
    var _ := MprotectExact(c.space, base, pages, prot);
    MprotectRefines(c.space, base, pages, prot);
    forall k | k in t.grants.inner && t.grants.inner[k].attrs.desc.Some?
      ensures InOneEntry(c.funmap, t.grants.inner[k].region)
    {
      var g := t.grants.inner[k];
      assert PartOf(g, inner);
      var j :| && j in inner && inner[j].attrs.desc == g.attrs.desc
               && inner[j].region.start <= g.region.start && g.region.End() <= inner[j].region.End();
      NarrowEntry(c.funmap, inner[j].region, g.region);
    }
  }

  // A key equal to an existing one would keep the old key, and so the old size.
  function InsertEntry(fm: Funmap, base: nat, size: nat, addr: nat): Funmap {
    fm[base := FunEntry(if base in fm then fm[base].size else size, addr)]
  }

  // The reply of a scheme to an fmap call: `address` is where the file is in the scheme. Anonymous
  // and physical mappings go through the same mmap without an entry.
  function Map(c: Client, mapAddress: nat, flags: MapFlags, m: Mapping, address: nat): (r: Result<Client>)
    requires c.Tracks()
  {
    if !Aligned(address) then Err(EINVAL) else
      var page := if mapAddress > 0 then Some(mapAddress / PAGE_SIZE) else None;
      var r := Mmap(c.space, page, flags, m);
      if r.Err? then Err(r.error) else
        var (region, space) := r.value;
        if m.attrs.desc.None? then Ok(c.(space := space)) else
          Ok(Client(space, InsertEntry(c.funmap, region.start, region.size, address), c.origin +
            Origins(region, address)))
  }

  function Origins(r: Region, address: nat): map<int, nat> {
    map b: int | r.start <= b < r.End() && r.Has(b) :: address + (b - r.start)
  }

  lemma FreshEntry(fm: Funmap, r: Region, addr: nat)
    requires Disjoint(fm) && r.size > 0 && forall b, a :: r.Has(b) ==> !ServedAt(fm, b, a)
    ensures var n := InsertEntry(fm, r.start, r.size, addr);
            && Disjoint(n) && InOneEntry(n, r)
            && (forall o :: InOneEntry(fm, o) ==> InOneEntry(n, o))
            && (forall b, a :: ServedAt(n, b, a) <==>
                  if r.Has(b) then a == addr + (b - r.start) else ServedAt(fm, b, a))
  {
    var n := InsertEntry(fm, r.start, r.size, addr);
    forall k | k in fm
      ensures k + fm[k].size <= r.start || r.End() <= k
    {
      var b := if k < r.start then r.start else k;
      assert EntryRegion(fm, k).Has(b) ==> ServedAt(fm, b, fm[k].addr + (b - k));
    }
    assert n[r.start] == FunEntry(r.size, addr) && forall k :: k in fm ==> n[k] == fm[k];
    forall b, a
      ensures ServedAt(n, b, a) <==> if r.Has(b) then a == addr + (b - r.start) else ServedAt(fm, b, a)
    {
      if r.Has(b) {
        assert EntryRegion(n, r.start).Has(b);
      } else if ServedAt(fm, b, a) {
        var k :| k in fm && EntryRegion(fm, k).Has(b) && a == fm[k].addr + (b - k);
        assert k in n && EntryRegion(n, k).Has(b);
      }
    }
    forall o | InOneEntry(fm, o)
      ensures InOneEntry(n, o)
    {
      var k :| k in fm && k <= o.start && o.End() <= EntryRegion(fm, k).End();
      assert k in n && k <= o.start && o.End() <= EntryRegion(n, k).End();
    }
  }

  lemma PlainPlaceTracks(c: Client, region: Region, m: Mapping)
    requires c.Tracks() && CanPlace(c.space, region, m) && m.attrs.desc.None?
    ensures c.(space := Place(c.space, region, m)).Tracks()
  {
    hide AttrsAt, ServedAt, InOneEntry, Disjoint, Space.Valid, IsFree, Place;
    PlaceExact(c.space, region, m);
  }

  lemma FilePlaceTracks(c: Client, region: Region, m: Mapping, address: nat)
    requires c.Tracks() && CanPlace(c.space, region, m) && m.attrs.desc.Some?
    ensures Client(Place(c.space, region, m), InsertEntry(c.funmap, region.start, region.size, address), c.origin +
              Origins(region, address)).Tracks()
  {
    hide AttrsAt, ServedAt, InOneEntry, Disjoint, Space.Valid, InsertEntry, IsFree, Place;
    PlaceExact(c.space, region, m);
    FreshEntry(c.funmap, region, address);
  }

  lemma MapTracks(c: Client, mapAddress: nat, flags: MapFlags, m: Mapping, address: nat)
    requires c.Tracks()
    ensures Map(c, mapAddress, flags, m, address).Ok? ==> Map(c, mapAddress, flags, m, address).value.Tracks()
  {
    hide Mmap, Place, Client.Tracks, InsertEntry, Origins;
    var r := Map(c, mapAddress, flags, m, address);
    if r.Ok? {
      var region := Mmap(c.space, if mapAddress > 0 then Some(mapAddress / PAGE_SIZE) else None, flags, m).value.0;
      if m.attrs.desc.None? {
        PlainPlaceTracks(c, region, m);
      } else {
        FilePlaceTracks(c, region, m, address);
      }
    }
  }

  // What a reply does, said of the client and the scheme alone: an unaligned address is refused; otherwise
  // the file is mapped where mmap puts it, near the address asked for if any, byte for byte at the scheme's
  // address; and what was listed before stays as it was.
  lemma MapExact(c: Client, mapAddress: nat, flags: MapFlags, m: Mapping, address: nat)
    requires c.Tracks()
    ensures var r := Map(c, mapAddress, flags, m, address);
            var at := Mmap(c.space, if mapAddress == 0 then None else Some(mapAddress / PAGE_SIZE), flags, m);
            if address % PAGE_SIZE != 0 then r == Err(EINVAL)
            else if at.Err? then r == Err(at.error)
            else
              && r.Ok? && r.value.space == at.value.1
              && (forall b, a :: ServedAt(r.value.funmap, b, a) <==>
                    if m.attrs.desc.Some? && at.value.0.Has(b) then a == address + (b - at.value.0.start)
                    else ServedAt(c.funmap, b, a))
  {
    hide Mmap, Place, InsertEntry, Origins, ServedAt, InOneEntry, Disjoint, AttrsAt, Space.Valid, CanPlace;
    var at := Mmap(c.space, if mapAddress == 0 then None else Some(mapAddress / PAGE_SIZE), flags, m);
    if Aligned(address) && at.Ok? && m.attrs.desc.Some? {
      PlaceExact(c.space, at.value.0, m);
      PlacedNotEmpty(c.space, at.value.0, m);
      FreshEntry(c.funmap, at.value.0, address);
    }
  }

  lemma PlacedNotEmpty(s: Space, region: Region, m: Mapping)
    requires CanPlace(s, region, m)
    ensures region.size > 0
  {
  }

  /// Runs

  datatype ClientOp =
    | DoMap(mapAddress: nat, flags: MapFlags, mapping: Mapping, address: nat)
    | DoUnmap(first: nat, count: nat)
    | DoProtect(base: nat, pages: nat, prot: MapFlags)

  // In every run of file mappings, other mappings, protections and unmappings the third table
  // stays exact.
  function ClientAfter(ops: seq<ClientOp>): (c: Client)
    ensures c.Tracks()
  {
    if ops == [] then NewClientTracks(); NEW_CLIENT else
      ClientStep(ClientAfter(ops[..|ops| - 1]), ops[|ops| - 1])
  }

  function ClientStep(c: Client, op: ClientOp): (d: Client)
    requires c.Tracks()
    ensures d.Tracks()
  {
    match op
    case DoMap(mapAddress, flags, m, address) =>
      MapTracks(c, mapAddress, flags, m, address);
      var r := Map(c, mapAddress, flags, m, address);
      if r.Ok? then r.value else c
    case DoUnmap(first, count) =>
      UnmapTracks(c, first, count);
      Unmap(c, first, count).0
    case DoProtect(base, pages, prot) =>
      ProtectTracks(c, base, pages, prot);
      Protect(c, base, pages, prot)
  }

  // Where the scheme has byte `b`, read off the operations: at the address given in the last reply that
  // mapped it, if nothing unmapped it since.
  ghost function SchemeAddress(ops: seq<ClientOp>, b: int): Option<int> {
    if ops == [] then None else
      var n := |ops| - 1;
      AddressAfter(ClientAfter(ops[..n]).space, ops[n], SchemeAddress(ops[..n], b), b)
  }

  ghost function AddressAfter(s: Space, op: ClientOp, before: Option<int>, b: int): Option<int>
    requires s.Valid()
  {
    match op
    case DoMap(mapAddress, flags, m, address) =>
      var at := Mmap(s, if mapAddress == 0 then None else Some(mapAddress / PAGE_SIZE), flags, m);
      if address % PAGE_SIZE == 0 && at.Ok? && m.attrs.desc.Some? && at.value.0.Has(b)
      then Some(address + (b - at.value.0.start)) else before
    case DoUnmap(first, count) => if Region(first * PAGE_SIZE, count * PAGE_SIZE).Has(b) then None else before
    case DoProtect(_, _, _) => before
  }

  lemma MapServes(c: Client, op: ClientOp, before: Option<int>, b: int, a: int)
    requires c.Tracks() && (ServedAt(c.funmap, b, a) <==> before == Some(a)) && op.DoMap?
    ensures ServedAt(ClientStep(c, op).funmap, b, a) <==> AddressAfter(c.space, op, before, b) == Some(a)
  {
    hide ServedAt, Mmap, Unmap, Mprotect, Map, Client.Tracks, Space.Valid;
    TracksValid(c);
    MapExact(c, op.mapAddress, op.flags, op.mapping, op.address);
    var r := Map(c, op.mapAddress, op.flags, op.mapping, op.address);
    assert ClientStep(c, op) == if r.Ok? then r.value else c;
  }

  lemma StepServes(c: Client, op: ClientOp, before: Option<int>, b: int, a: int)
    requires c.Tracks() && (ServedAt(c.funmap, b, a) <==> before == Some(a))
    ensures ServedAt(ClientStep(c, op).funmap, b, a) <==> AddressAfter(c.space, op, before, b) == Some(a)
  {
    hide ServedAt, Mmap, Unmap, Mprotect, Map, Client.Tracks, Space.Valid;
    TracksValid(c);
    if op.DoMap? {
      MapServes(c, op, before, b, a);
    } else if op.DoUnmap? {
      UnmapServes(c, op.first, op.count, b, a);
    }
  }

  // The table has every byte where the operations put it.
  lemma {:induction false} ServedFromReplies(ops: seq<ClientOp>, b: int, a: int)
    ensures ServedAt(ClientAfter(ops).funmap, b, a) <==> SchemeAddress(ops, b) == Some(a)
    decreases |ops|
  {
    hide ServedAt, ClientStep, AddressAfter;
    if ops == [] {
      NothingServed(b, a);
    } else {
      var n := |ops| - 1;
      ServedFromReplies(ops[..n], b, a);
      StepServes(ClientAfter(ops[..n]), ops[n], SchemeAddress(ops[..n], b), b, a);
    }
  }

  lemma TracksValid(c: Client)
    requires c.Tracks()
    ensures c.space.Valid()
  {
  }

  lemma NothingServed(b: int, a: int)
    ensures !ServedAt(map[], b, a)
  {
  }

  lemma UnmapServes(c: Client, first: nat, count: nat, b: int, a: int)
    requires c.Tracks()
    ensures ServedAt(Unmap(c, first, count).0.funmap, b, a) <==>
            ServedAt(c.funmap, b, a) && !Region(first * PAGE_SIZE, count * PAGE_SIZE).Has(b)
  {
    hide ServedAt, Munmap, NotifyAll, InOneEntry, Queued, Listed, AttrsAt, Client.FileBacked;
    var notes := Munmap(c.space, first, count).1;
    NotesQueued(c, first, count);
    NotifyAllExact(c.funmap, notes);
    TracksListed(c, b);
    ListedServed(c.funmap, b);
  }

  // In every run, no lookup made by munmap fails, and the address sent to the scheme is the one it gave in
  // its reply, plus the offset of the part that goes.
  lemma RunSendsRepliedAddresses(ops: seq<ClientOp>, page: nat, count: nat, i: nat, b: int)
    requires i < |Munmap(ClientAfter(ops).space, page, count).1|
    requires Munmap(ClientAfter(ops).space, page, count).1[i].1.Has(b)
    ensures var c := ClientAfter(ops);
            var sent, part := Unmap(c, page, count).1[i], Munmap(c.space, page, count).1[i].1;
            sent.Ok? && SchemeAddress(ops, b) == Some(sent.value + (b - part.start))
  {
    hide Munmap, Unmap, ServedAt, SchemeAddress, ClientAfter, Client.Tracks, Space.Valid;
    var c := ClientAfter(ops);
    TracksValid(c);
    UnmapSendsServed(c, page, count, i, b);
    ServedFromReplies(ops, b, Unmap(c, page, count).1[i].value + (b - Munmap(c.space, page, count).1[i].1.start));
  }

  lemma UnmapSendsServed(c: Client, page: nat, count: nat, i: nat, b: int)
    requires c.Tracks() && i < |Munmap(c.space, page, count).1| && Munmap(c.space, page, count).1[i].1.Has(b)
    ensures i < |Unmap(c, page, count).1|
    ensures var sent, part := Unmap(c, page, count).1[i], Munmap(c.space, page, count).1[i].1;
            sent.Ok? && ServedAt(c.funmap, b, sent.value + (b - part.start))
  {
    hide Munmap, NotifyAll, ServedAt, InOneEntry, Queued;
    NotesQueued(c, page, count);
    NotifyAllExact(c.funmap, Munmap(c.space, page, count).1);
  }

  // One page of a file at page 1 of a new space.
  const FILE_FLAGS := MapFlags(false, false, false, false)
  const FILE_PAGE := Mapping([5], Attrs(PageFlagsOf(FILE_FLAGS), false, false, Some(FileRef(0, 0, 0))))
  const MAP_FILE := DoMap(PAGE_SIZE, FILE_FLAGS, FILE_PAGE, 0)

  lemma FileAtPageOne()
    ensures ClientAfter([MAP_FILE]).FileBacked(PAGE_SIZE)
  {
    hide Mmap, Place, CanPlace, AttrsAt, Client.Tracks;
    NewClientTracks();
    NewSpaceValid();
    MmapOutcome(NEW_SPACE, Some(1), FILE_FLAGS, FILE_PAGE);
    PlaceExact(NEW_SPACE, Region(PAGE_SIZE, PAGE_SIZE), FILE_PAGE);
    assert [MAP_FILE][..0] == [];
    assert ClientAfter([]) == NEW_CLIENT;
    assert Region(PAGE_SIZE, PAGE_SIZE).Has(PAGE_SIZE);
  }

  // Unmapped from another context, the page stays listed in its own table, and a context that has a file
  // of its own at the same address loses the entry for it.
  lemma ForeignUnmapGoesWrong()
    ensures var c := ClientAfter([MAP_FILE]);
            var (space, notes) := Munmap(c.space, 1, 1);
            && Listed(c.funmap, PAGE_SIZE) && !c.(space := space).FileBacked(PAGE_SIZE)
            && var n := NotifyAll(c.funmap, notes).1; c.FileBacked(PAGE_SIZE) && !Listed(n, PAGE_SIZE)
  {
    hide Munmap, NotifyAll, ServedAt, Listed, InOneEntry, AttrsAt, Space.Valid, ClientAfter, Client.FileBacked;
    var c := ClientAfter([MAP_FILE]);
    FileAtPageOne();
    TracksListed(c, PAGE_SIZE);
    UnmappedFileBacked(c, 1, 1, PAGE_SIZE);
    var notes := Munmap(c.space, 1, 1).1;
    NotesQueued(c, 1, 1);
    NotifyAllExact(c.funmap, notes);
    assert Region(1 * PAGE_SIZE, 1 * PAGE_SIZE).Has(PAGE_SIZE);
    assert InNotes(notes, PAGE_SIZE);
    ListedServed(NotifyAll(c.funmap, notes).1, PAGE_SIZE);
  }
}
