// Ordered-map queries, and the free-interval map of an address space.
// Models the `BTreeMap` range queries and `UserGrants::{reserve, unreserve}` on `holes`.
module Ordered {
  import opened Regions

  // `range(..=x).next_back()`: the greatest key not above `x`.
  function Floor(keys: set<nat>, x: nat): (r: Option<nat>)
    ensures r.Some? ==> r.value in keys && r.value <= x
    ensures r.Some? ==> forall k :: k in keys && k <= x ==> k <= r.value
    ensures r.None? ==> forall k :: k in keys ==> x < k
  {
    if x in keys then Some(x) else if x == 0 then None else Floor(keys, x - 1)
  }

  // `range(..x).next_back()`: the greatest key strictly below `x`.
  function Below(keys: set<nat>, x: nat): (r: Option<nat>)
    ensures r.Some? ==> r.value in keys && r.value < x
    ensures r.Some? ==> forall k :: k in keys && k < x ==> k <= r.value
    ensures r.None? ==> forall k :: k in keys ==> x <= k
  {
    if x == 0 then None else Floor(keys, x - 1)
  }

  lemma MaxExists(keys: set<nat>)
    requires keys != {}
    ensures exists m :: m in keys && forall k :: k in keys ==> k <= m
  {
    var x :| x in keys;
    if keys - {x} == {} {
      assert keys == {x};
    } else {
      MaxExists(keys - {x});
      var m :| m in keys - {x} && forall k :: k in keys - {x} ==> k <= m;
      var top := if m < x then x else m;
      assert forall k :: k in keys ==> k == x || k in keys - {x};
      assert top in keys && forall k :: k in keys ==> k <= top;
    }
  }

  ghost predicate StrictlySorted(s: seq<nat>) {
    forall i, j :: 0 <= i < j < |s| ==> s[i] < s[j]
  }

  // The order in which an ordered set or map is iterated.
  function Ascending(keys: set<nat>): (s: seq<nat>)
    ensures StrictlySorted(s)
    ensures forall k :: k in s <==> k in keys
  {
    if keys == {} then [] else
      MaxExists(keys);
      var m :| m in keys && forall k :: k in keys ==> k <= m;
      Ascending(keys - {m}) + [m]
  }
}

module Holes {
  import opened Regions
  import opened Ordered

  // start of a free interval -> its size
  type Intervals = map<nat, nat>

  ghost predicate InHole(h: Intervals, b: int) {
    exists k :: k in h && Region(k, h[k]).Has(b)
  }

  // Non-empty, disjoint and never adjacent: every interval is maximal.
  ghost predicate Separated(h: Intervals) {
    && (forall k :: k in h ==> h[k] > 0)
    && (forall i, j :: i in h && j in h && i < j ==> i + h[i] < j)
  }

  // A free stretch of bytes lies inside one interval.
  lemma StretchInOneHole(h: Intervals, r: Region) returns (k: nat)
    requires Separated(h) && r.size > 0
    requires forall b :: r.Has(b) ==> InHole(h, b)
    ensures k in h && k <= r.start && r.End() <= k + h[k]
  {
    assert r.Has(r.start);
    k :| k in h && Region(k, h[k]).Has(r.start);
    AfterHole(h, k);
    assert !r.Has(k + h[k]);
  }

  lemma AfterHole(h: Intervals, k: nat)
    requires Separated(h) && k in h
    ensures !InHole(h, k + h[k])
  {
  }

  function Reserve(h: Intervals, r: Region): (res: Intervals)
    requires Separated(h) && r.size > 0
    requires forall b :: r.Has(b) ==> InHole(h, b)
  {
    var prev := Below(h.Keys, r.start);
    var h1 :=
      if prev.None? then h else
        var k := prev.value;
        var prevEnd := k + h[k];
        var shrunk := if prevEnd > r.start then h[k := r.start - k] else h;
        if prevEnd > r.End() then shrunk[r.End() := prevEnd - r.End()] else shrunk;
    if r.start in h1 then
      // Never negative here; see `ReserveExact`.
      var remainder := h1[r.start] - r.size;
      var h2 := h1 - {r.start};
      if remainder > 0 then h2[r.End() := remainder] else h2
    else h1
  }

  // What `Reserve` leaves of the one interval `k` that holds `r`: a piece on either side.
  ghost function Cut(h: Intervals, k: nat, r: Region): Intervals
    requires k in h && k <= r.start && r.End() <= k + h[k]
  {
    var rest := h - {k};
    var left := if k < r.start then rest[k := r.start - k] else rest;
    if r.End() < k + h[k] then left[r.End() := k + h[k] - r.End()] else left
  }

  lemma ReserveIsCut(h: Intervals, r: Region, k: nat)
    requires Separated(h) && r.size > 0
    requires forall b :: r.Has(b) ==> InHole(h, b)
    requires k in h && k <= r.start && r.End() <= k + h[k]
    ensures Reserve(h, r) == Cut(h, k, r)
  {
    var prev := Below(h.Keys, r.start);
    if k < r.start {
      assert prev == Some(k);
    } else {
      assert prev.Some? ==> prev.value + h[prev.value] < r.start;
    }
  }

  lemma CutSeparated(h: Intervals, k: nat, r: Region)
    requires Separated(h) && r.size > 0
    requires k in h && k <= r.start && r.End() <= k + h[k]
    ensures Separated(Cut(h, k, r))
  {
  }

  lemma CutBytes(h: Intervals, k: nat, r: Region, b: int)
    requires Separated(h) && r.size > 0
    requires k in h && k <= r.start && r.End() <= k + h[k]
    ensures InHole(Cut(h, k, r), b) <==> InHole(h, b) && !r.Has(b)
  {
    if InHole(Cut(h, k, r), b) {
      CutAdds(h, k, r, b);
    }
    if InHole(h, b) && !r.Has(b) {
      CutLeaves(h, k, r, b);
    }
  }

  lemma CutAdds(h: Intervals, k: nat, r: Region, b: int)
    requires Separated(h) && r.size > 0
    requires k in h && k <= r.start && r.End() <= k + h[k] && InHole(Cut(h, k, r), b)
    ensures InHole(h, b) && !r.Has(b)
  {
    var n := Cut(h, k, r);
    var j :| j in n && Region(j, n[j]).Has(b);
    var w := if j == r.End() then k else j;
    assert w in h && Region(w, h[w]).Has(b);
  }

  lemma CutLeaves(h: Intervals, k: nat, r: Region, b: int)
    requires Separated(h) && r.size > 0
    requires k in h && k <= r.start && r.End() <= k + h[k] && InHole(h, b) && !r.Has(b)
    ensures InHole(Cut(h, k, r), b)
  {
    var n := Cut(h, k, r);
    var j :| j in h && Region(j, h[j]).Has(b);
    var w := if j == k && r.End() <= b then r.End() else j;
    assert w in n && Region(w, n[w]).Has(b);
  }

  // Splitting removes exactly the reserved bytes and keeps every interval maximal.
  lemma ReserveExact(h: Intervals, r: Region)
    requires Separated(h) && r.size > 0
    requires forall b :: r.Has(b) ==> InHole(h, b)
    ensures Separated(Reserve(h, r))
    ensures forall b :: InHole(Reserve(h, r), b) <==> InHole(h, b) && !r.Has(b)
  {
    var k := StretchInOneHole(h, r);
    ReserveIsCut(h, r, k);
    CutSeparated(h, k, r);
    forall b
      ensures InHole(Reserve(h, r), b) <==> InHole(h, b) && !r.Has(b)
    {
      CutBytes(h, k, r, b);
    }
  }

  function Unreserve(h: Intervals, r: Region): (res: Intervals) {
    var afterSize := if r.End() in h then h[r.End()] else 0;
    var h1 := h - {r.End()};
    var prev := Below(h1.Keys, r.start);
    if prev.Some? && prev.value + h1[prev.value] == r.start then
      h1[prev.value := r.End() - prev.value + afterSize]
    else
      h1[r.start := r.size + afterSize]
  }

  // Freed bytes lie strictly between the intervals around them, or touch them.
  ghost predicate Outside(h: Intervals, r: Region) {
    forall j :: j in h ==> j + h[j] <= r.start || r.End() <= j
  }

  lemma TakenIsOutside(h: Intervals, r: Region)
    requires Separated(h) && r.size > 0
    requires forall b :: r.Has(b) ==> !InHole(h, b)
    ensures Outside(h, r)
  {
    forall j | j in h
      ensures j + h[j] <= r.start || r.End() <= j
    {
      if r.start < j + h[j] && j < r.End() {
        var b := if j < r.start then r.start else j;
        assert r.Has(b) && Region(j, h[j]).Has(b);
        assert false;
      }
    }
  }

  // The interval that `Unreserve` grows or creates.
  ghost function Grown(h: Intervals, r: Region): (g: Region)
    requires Separated(h) && r.size > 0 && Outside(h, r)
    ensures g.start <= r.start && r.End() <= g.End()
    ensures g.start < r.start ==> g.start in h && g.start + h[g.start] == r.start
    ensures r.End() < g.End() ==> r.End() in h && r.End() + h[r.End()] == g.End()
    ensures g.start == r.start ==> forall j :: j in h ==> j + h[j] != r.start
    ensures g.End() == r.End() ==> r.End() !in h
  {
    var prev := Below(h.Keys, r.start);
    var lo := if prev.Some? && prev.value + h[prev.value] == r.start then prev.value else r.start;
    var hi := r.End() + if r.End() in h then h[r.End()] else 0;
    Region(lo, hi - lo)
  }

  lemma UnreserveIsGrown(h: Intervals, r: Region)
    requires Separated(h) && r.size > 0 && Outside(h, r)
    ensures Unreserve(h, r) == (h - {r.End()})[Grown(h, r).start := Grown(h, r).size]
  {
    hide Below;
    SameBelow(h, r);
  }

  lemma SameBelow(h: Intervals, r: Region)
    requires r.size > 0
    ensures Below((h - {r.End()}).Keys, r.start) == Below(h.Keys, r.start)
  {
    hide Below;
    var rest := h - {r.End()};
    assert forall j :: j in h && j < r.start ==> j in rest;
    assert forall j :: j in rest ==> j in h;
  }

  lemma GrownSeparated(h: Intervals, r: Region)
    requires Separated(h) && r.size > 0 && Outside(h, r)
    ensures Separated((h - {r.End()})[Grown(h, r).start := Grown(h, r).size])
  {
  }

  lemma GrownBytes(h: Intervals, r: Region, b: int)
    requires Separated(h) && r.size > 0 && Outside(h, r)
    ensures InHole((h - {r.End()})[Grown(h, r).start := Grown(h, r).size], b) <==> InHole(h, b) || r.Has(b)
  {
    hide Grown;
    var g := Grown(h, r);
    var n := (h - {r.End()})[g.start := g.size];
    if InHole(n, b) && !r.Has(b) {
      var j :| j in n && Region(j, n[j]).Has(b);
      var w := if j == g.start && r.End() <= b then r.End() else j;
      assert w in h && Region(w, h[w]).Has(b);
    }
    if r.Has(b) || InHole(h, b) {
      GrownKeeps(h, r, b);
    }
  }

  lemma GrownKeeps(h: Intervals, r: Region, b: int)
    requires Separated(h) && r.size > 0 && Outside(h, r) && (InHole(h, b) || r.Has(b))
    ensures InHole((h - {r.End()})[Grown(h, r).start := Grown(h, r).size], b)
  {
    hide Grown;
    var g := Grown(h, r);
    var n := (h - {r.End()})[g.start := g.size];
    if r.Has(b) {
      assert Region(g.start, n[g.start]).Has(b);
    } else {
      var j :| j in h && Region(j, h[j]).Has(b);
      var w := if j == r.End() then g.start else j;
      assert w in n && Region(w, n[w]).Has(b);
    }
  }

  // Coalescing adds exactly the freed bytes and keeps every interval maximal.
  lemma UnreserveExact(h: Intervals, r: Region)
    requires Separated(h) && r.size > 0
    requires forall b :: r.Has(b) ==> !InHole(h, b)
    ensures Separated(Unreserve(h, r))
    ensures forall b :: InHole(Unreserve(h, r), b) <==> InHole(h, b) || r.Has(b)
  {
    TakenIsOutside(h, r);
    UnreserveIsGrown(h, r);
    GrownSeparated(h, r);
    forall b
      ensures InHole(Unreserve(h, r), b) <==> InHole(h, b) || r.Has(b)
    {
      GrownBytes(h, r, b);
    }
  }

  // The free-interval map is a function of the set of free bytes: no other map of maximal
  // intervals describes the same bytes.
  lemma HolesUnique(h1: Intervals, h2: Intervals)
    requires Separated(h1) && Separated(h2)
    requires forall b :: InHole(h1, b) <==> InHole(h2, b)
    ensures h1 == h2
  {
    SameHoles(h1, h2);
    SameHoles(h2, h1);
  }

  lemma SameHoles(h1: Intervals, h2: Intervals)
    requires Separated(h1) && Separated(h2)
    requires forall b :: InHole(h1, b) <==> InHole(h2, b)
    ensures forall k :: k in h1 ==> k in h2 && h2[k] == h1[k]
  {
    forall k | k in h1
      ensures k in h2 && h2[k] == h1[k]
    {
      var r := Region(k, h1[k]);
      forall b | r.Has(b)
        ensures InHole(h2, b)
      {
        assert InHole(h1, b);
      }
      var j := StretchInOneHole(h2, r);
      var wide := Region(j, h2[j]);
      forall b | wide.Has(b)
        ensures InHole(h1, b)
      {
        assert InHole(h2, b);
      }
      var i := StretchInOneHole(h1, wide);
      assert i == k;
    }
  }
}
