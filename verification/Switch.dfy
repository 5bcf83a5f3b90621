// The scheduler: `switch` over the ordered list of contexts, on any number of CPUs.
module Scheduling {
  import opened Regions
  import opened Ordered
  import opened Contexts

  type ContextList = map<nat, Context>

  datatype Found = Next(id: nat) | Nothing | Panicked

  // All other contexts in the order they are looked at: greater IDs, then smaller ones.
  function CyclicOrder(ids: set<nat>, prev: nat): (order: seq<nat>)
    ensures forall k :: k in order <==> k in ids && k != prev
  {
    Ascending(set k | k in ids && k > prev) + Ascending(set k | k in ids && k < prev)
  }

  // Steps from `prev` to `t` when IDs below `m` are arranged in a circle.
  function Distance(prev: nat, t: nat, m: nat): (d: int) {
    if t > prev then t - prev else t + m - prev
  }

  ghost predicate Bounded(ids: set<nat>, m: nat) {
    forall k :: k in ids ==> k < m
  }

  lemma CyclicOrderSorted(ids: set<nat>, prev: nat, m: nat)
    requires Bounded(ids, m) && prev < m
    ensures var order := CyclicOrder(ids, prev);
            forall i, j :: 0 <= i < j < |order| ==> Distance(prev, order[i], m) < Distance(prev, order[j], m)
  {
    var above := Ascending(set k | k in ids && k > prev);
    var below := Ascending(set k | k in ids && k < prev);
    assert forall i :: 0 <= i < |above| ==> above[i] in above;
    assert forall i :: 0 <= i < |below| ==> below[i] in below;
  }

  lemma CyclicOrderDistinct(ids: set<nat>, prev: nat)
    ensures var order := CyclicOrder(ids, prev);
            forall i, j :: 0 <= i < j < |order| ==> order[i] != order[j]
  {
    hide Ascending;
    var above := Ascending(set k | k in ids && k > prev);
    var below := Ascending(set k | k in ids && k < prev);
    assert forall i :: 0 <= i < |above| ==> above[i] in above;
    assert forall i :: 0 <= i < |below| ==> below[i] in below;
    HalvesDistinct(above, below, prev);
  }

  lemma HalvesDistinct(above: seq<nat>, below: seq<nat>, prev: nat)
    requires StrictlySorted(above) && StrictlySorted(below)
    requires forall i :: 0 <= i < |above| ==> prev < above[i]
    requires forall i :: 0 <= i < |below| ==> below[i] < prev
    ensures forall i, j :: 0 <= i < j < |above + below| ==> (above + below)[i] != (above + below)[j]
  {
    var order := above + below;
    forall i, j | 0 <= i < j < |order|
      ensures order[i] != order[j]
    {
      if i < |above| <= j {
        assert order[j] == below[j - |above|];
      }
    }
  }

  /// The scan

  ghost predicate Known(cs: ContextList, ids: seq<nat>) {
    forall i :: 0 <= i < |ids| ==> ids[i] in cs
  }

  function Scan(cs: ContextList, ids: seq<nat>, cpu: nat, now: nat): (r: (ContextList, Found))
    requires Known(cs, ids)
    ensures r.0.Keys == cs.Keys
    ensures r.1.Next? ==> r.1.id in ids
  {
    if ids == [] then (cs, Nothing)
    else if Panics(cs[ids[0]], cpu) then (cs, Panicked)
    else
      var (c, eligible) := UpdateRunnable(cs[ids[0]], cpu, now);
      if eligible then (cs[ids[0] := c], Next(ids[0])) else Scan(cs[ids[0] := c], ids[1..], cpu, now)
  }

  // The scan stops at the first context that may run, having updated that one and those before it.
  ghost predicate StopsAt(cs: ContextList, ids: seq<nat>, cpu: nat, now: nat, n: nat, r: (ContextList, Found)) {
    && n <= |ids| && Known(cs, ids)
    && r.0.Keys == cs.Keys
    && (forall i :: 0 <= i < n ==>
          !Panics(cs[ids[i]], cpu) && !Eligible(cs[ids[i]], cpu, now) &&
          r.0[ids[i]] == UpdateRunnable(cs[ids[i]], cpu, now).0)
    && (n == |ids| ==> r.1 == Nothing)
    && (n < |ids| && Panics(cs[ids[n]], cpu) ==> r.1 == Panicked && r.0[ids[n]] == cs[ids[n]])
    && (n < |ids| && !Panics(cs[ids[n]], cpu) ==>
         r.1 == Next(ids[n]) && Eligible(cs[ids[n]], cpu, now) && r.0[ids[n]] == UpdateRunnable(cs[ids[n]], cpu, now).0)
    && (forall id :: id in cs && id !in ids[..n] && (n < |ids| ==> id != ids[n]) ==> r.0[id] == cs[id])
  }

  lemma {:induction false} ScanExact(cs: ContextList, ids: seq<nat>, cpu: nat, now: nat) returns (n: nat)
    requires Known(cs, ids)
    requires forall i, j :: 0 <= i < j < |ids| ==> ids[i] != ids[j]
    ensures StopsAt(cs, ids, cpu, now, n, Scan(cs, ids, cpu, now))
    decreases |ids|
  {
    hide UpdateRunnable, Panics, Eligible;
    if ids == [] || Panics(cs[ids[0]], cpu) {
      n := 0;
    } else {
      var (c, eligible) := UpdateRunnable(cs[ids[0]], cpu, now);
      if eligible {
        n := 0;
      } else {
        var rest := ids[1..];
        var next := cs[ids[0] := c];
        n := ScanExact(next, rest, cpu, now);
        ScanStep(cs, ids, cpu, now, n, c, Scan(next, rest, cpu, now));
        n := n + 1;
      }
    }
  }

  lemma ScanStep(cs: ContextList, ids: seq<nat>, cpu: nat, now: nat, n: nat, c: Context, r: (ContextList, Found))
    requires Known(cs, ids) && ids != []
    requires forall i, j :: 0 <= i < j < |ids| ==> ids[i] != ids[j]
    requires !Panics(cs[ids[0]], cpu) && UpdateRunnable(cs[ids[0]], cpu, now) == (c, false)
    requires StopsAt(cs[ids[0] := c], ids[1..], cpu, now, n, r)
    ensures StopsAt(cs, ids, cpu, now, n + 1, r)
  {
    hide UpdateRunnable, Panics, Eligible;
    var rest := ids[1..];
    assert forall i :: 0 <= i < |rest| ==> rest[i] == ids[i + 1] && rest[i] != ids[0];
    assert ids[0] !in rest[..n];
    assert r.0[ids[0]] == c;
    assert forall i :: 1 <= i < n + 1 ==> ids[i] == rest[i - 1];
    assert ids[..n + 1] == [ids[0]] + rest[..n];
  }

  /// switch

  // `current` gives each running CPU its context.
  datatype Sched = Sched(contexts: ContextList, current: map<nat, nat>)
  {
    // Every CPU runs its own current context, every running context is current on the CPU that
    // claimed it, and what was put aside for signals can be put back.
    ghost predicate Valid() {
      && (forall cpu :: cpu in current ==>
            current[cpu] in contexts && contexts[current[cpu]].running && contexts[current[cpu]].cpuId == Some(cpu))
      && (forall id :: id in contexts && contexts[id].running ==>
            contexts[id].cpuId.Some? && contexts[id].cpuId.value in current && current[contexts[id].cpuId.value] == id)
      && (forall id :: id in contexts ==> contexts[id].Sound())
    }

    predicate Active(cpu: nat) {
      cpu in current && current[cpu] in contexts
    }
  }

  function Switched(cs: ContextList, prev: nat, next: nat, signalStack: nat, now: nat): ContextList
    requires prev in cs && next in cs
  {
    cs[prev := SwitchedOut(cs[prev], now)][next := SwitchedIn(cs[next], signalStack, now)]
  }

  function ScanOn(s: Sched, cpu: nat, now: nat): (r: (ContextList, Found))
    requires s.Active(cpu)
    ensures r.0.Keys == s.contexts.Keys
    ensures r.1.Next? ==> r.1.id in s.contexts && r.1.id != s.current[cpu]
  {
    Scan(s.contexts, CyclicOrder(s.contexts.Keys, s.current[cpu]), cpu, now)
  }

  function Switch(s: Sched, cpu: nat, now: nat, signalStack: nat): (r: Sched)
    requires s.Active(cpu)
  {
    var (cs, found) := ScanOn(s, cpu, now);
    match found
    case Next(next) => Sched(Switched(cs, s.current[cpu], next, signalStack, now), s.current[cpu := next])
    case _ => s.(contexts := cs)
  }

  // What one look at a context leaves: it neither starts nor stops, and only an unclaimed one is claimed.
  ghost predicate Looked(c: Context, r: Context) {
    && r.running == c.running
    && (c.cpuId.Some? ==> r.cpuId == c.cpuId)
    && (c.running ==> r == c)
    && (c.Sound() ==> r.Sound())
  }

  lemma ScanOnLooks(s: Sched, cpu: nat, now: nat) returns (n: nat)
    requires s.Active(cpu)
    ensures StopsAt(s.contexts, CyclicOrder(s.contexts.Keys, s.current[cpu]), cpu, now, n, ScanOn(s, cpu, now))
    ensures ScanOn(s, cpu, now).0[s.current[cpu]] == s.contexts[s.current[cpu]]
    ensures forall id :: id in s.contexts ==> Looked(s.contexts[id], ScanOn(s, cpu, now).0[id])
    ensures var r := ScanOn(s, cpu, now); r.1.Next? ==>
              Eligible(s.contexts[r.1.id], cpu, now) && r.0[r.1.id].cpuId == Some(cpu)
  {
    hide Panics, Eligible, Context.Sound, Scan, CyclicOrder;
    var ids := CyclicOrder(s.contexts.Keys, s.current[cpu]);
    CyclicOrderDistinct(s.contexts.Keys, s.current[cpu]);
    n := ScanExact(s.contexts, ids, cpu, now);
    var r := ScanOn(s, cpu, now);
    forall id | id in s.contexts ensures Looked(s.contexts[id], r.0[id]) {
      if id in ids[..n] {
        var i :| 0 <= i < n && ids[i] == id;
      }
    }
  }

  lemma LookedValid(s: Sched, cs: ContextList)
    requires s.Valid() && cs.Keys == s.contexts.Keys
    requires forall id :: id in s.contexts ==> Looked(s.contexts[id], cs[id])
    ensures s.(contexts := cs).Valid()
  {
  }

  lemma SwitchedValid(s: Sched, cpu: nat, next: nat, now: nat, signalStack: nat)
    requires s.Valid() && s.Active(cpu) && next in s.contexts
    requires !s.contexts[next].running && s.contexts[next].cpuId == Some(cpu)
    ensures Sched(Switched(s.contexts, s.current[cpu], next, signalStack, now), s.current[cpu := next]).Valid()
  {
    SwitchedSound(s.contexts, s.current[cpu], next, signalStack, now);
    hide Switched, Context.Sound;
  }

  // A switch keeps the invariant, touches no other CPU's context, and no claim is ever given up.
  lemma SwitchValid(s: Sched, cpu: nat, now: nat, signalStack: nat)
    requires s.Valid() && s.Active(cpu)
    ensures var r := Switch(s, cpu, now, signalStack);
            && r.Valid() && r.contexts.Keys == s.contexts.Keys && r.current.Keys == s.current.Keys
            && (forall other :: other in s.current && other != cpu ==>
                  r.current[other] == s.current[other] && r.contexts[r.current[other]] == s.contexts[s.current[other]])
            && (forall id :: id in s.contexts && s.contexts[id].cpuId.Some? ==>
                  r.contexts[id].cpuId == s.contexts[id].cpuId)
  {
    hide Scan, ScanOn, StopsAt, UpdateRunnable, Panics, Eligible, CyclicOrder, Context.Sound, SwitchedIn, SwitchedOut,
      Switched;
    var n := ScanOnLooks(s, cpu, now);
    var (cs, found) := ScanOn(s, cpu, now);
    LookedValid(s, cs);
    if found.Next? {
      EligibleIdle(s.contexts[found.id], cpu, now);
      SwitchedValid(s.(contexts := cs), cpu, found.id, now, signalStack);
      SwitchedSound(cs, s.current[cpu], found.id, signalStack, now);
    }
  }

  lemma EligibleIdle(c: Context, cpu: nat, now: nat)
    requires Eligible(c, cpu, now)
    ensures !c.running
  {
  }

  lemma SwitchedSound(cs: ContextList, prev: nat, next: nat, signalStack: nat, now: nat)
    requires prev in cs && next in cs && prev != next && cs[prev].Sound() && cs[next].Sound()
    ensures var r := Switched(cs, prev, next, signalStack, now);
            && r.Keys == cs.Keys
            && r[prev].Sound() && !r[prev].running && r[prev].cpuId == cs[prev].cpuId
            && r[next].Sound() && r[next].running && r[next].cpuId == cs[next].cpuId
            && (forall id :: id in cs && id != prev && id != next ==> r[id] == cs[id])
  {
  }

  /// Fairness

  // The context switched to is the first eligible one around the circle of IDs; without a panic there
  // is a switch exactly when another context is eligible.
  lemma SwitchNearest(s: Sched, cpu: nat, now: nat, signalStack: nat, m: nat)
    requires s.Active(cpu) && Bounded(s.contexts.Keys, m)
    ensures var (cs, found) := ScanOn(s, cpu, now);
            && (found == Nothing ==> Switch(s, cpu, now, signalStack).current == s.current)
            && (found == Nothing ==> forall t :: t in s.contexts && t != s.current[cpu] ==>
                  !Eligible(s.contexts[t], cpu, now))
            && (found.Next? ==>
                  && Switch(s, cpu, now, signalStack).current == s.current[cpu := found.id]
                  && Eligible(s.contexts[found.id], cpu, now)
                  && (forall t :: t in s.contexts && t != s.current[cpu] && Eligible(s.contexts[t], cpu, now) ==>
                        Distance(s.current[cpu], found.id, m) <= Distance(s.current[cpu], t, m)))
  {
    hide Scan, ScanOn, StopsAt, UpdateRunnable, Panics, Eligible, Distance, Switched, CyclicOrder;
    var prev := s.current[cpu];
    var n := ScanOnLooks(s, cpu, now);
    forall t | t in s.contexts && t != prev && Eligible(s.contexts[t], cpu, now)
      ensures ScanOn(s, cpu, now).1 != Nothing
      ensures ScanOn(s, cpu, now).1.Next? ==> Distance(prev, ScanOn(s, cpu, now).1.id, m) <= Distance(prev, t, m)
    {
      StopsAtNearest(s.contexts, prev, cpu, now, n, ScanOn(s, cpu, now), t, m);
    }
  }

  lemma StopsAtNearest(cs: ContextList, prev: nat, cpu: nat, now: nat, n: nat, r: (ContextList, Found), t: nat, m: nat)
    requires StopsAt(cs, CyclicOrder(cs.Keys, prev), cpu, now, n, r)
    requires Bounded(cs.Keys, m) && prev < m && t in cs && t != prev && Eligible(cs[t], cpu, now)
    ensures r.1 != Nothing
    ensures r.1.Next? ==> Distance(prev, r.1.id, m) <= Distance(prev, t, m)
  {
    hide Distance, UpdateRunnable, Panics, Eligible, CyclicOrder, StopsAt;
    CyclicOrderSorted(cs.Keys, prev, m);
    var ids := CyclicOrder(cs.Keys, prev);
    assert t in ids;
    var j :| 0 <= j < |ids| && ids[j] == t;
    StopsNoLater(cs, ids, cpu, now, n, r, j);
  }

  lemma StopsNoLater(cs: ContextList, ids: seq<nat>, cpu: nat, now: nat, n: nat, r: (ContextList, Found), j: nat)
    requires StopsAt(cs, ids, cpu, now, n, r) && j < |ids| && Eligible(cs[ids[j]], cpu, now)
    ensures n <= j && r.1 != Nothing && (r.1.Next? ==> r.1.id == ids[n])
  {
    hide UpdateRunnable, Panics, Eligible;
    assert forall i :: 0 <= i < n ==> !Eligible(cs[ids[i]], cpu, now);
  }

  // Every switch on the CPU brings an eligible context strictly nearer, or runs it.
  lemma SwitchApproaches(s: Sched, cpu: nat, now: nat, signalStack: nat, t: nat, m: nat)
    requires s.Valid() && s.Active(cpu) && Bounded(s.contexts.Keys, m)
    requires t in s.contexts && Eligible(s.contexts[t], cpu, now)
    requires ScanOn(s, cpu, now).1 != Panicked
    ensures t != s.current[cpu]
    ensures var next := Switch(s, cpu, now, signalStack).current[cpu];
            next == t || 0 < Distance(next, t, m) < Distance(s.current[cpu], t, m)
  {
    hide ScanOn;
    EligibleIdle(s.contexts[t], cpu, now);
    hide Switched, Eligible, Switch;
    SwitchNearest(s, cpu, now, signalStack, m);
  }

  /// Runs of the whole system

  datatype SchedOp =
    | SwitchOn(cpu: nat, now: nat, signalStack: nat)
    | Boot(cpu: nat)
    | Create(id: nat, context: Context)
    | Reap(id: nat)
    | Happen(id: nat, event: Event)

  const NEW_CONTEXT := Context(Blocked, false, None, None, false, None, [], 0, 0, None, false, None, false, {}, 0, 0)

  predicate Enabled(s: Sched, op: SchedOp) {
    match op
    case SwitchOn(cpu, _, _) => s.Active(cpu)
    case Boot(cpu) => cpu !in s.current && cpu + 1 !in s.contexts
    case Create(id, c) => id !in s.contexts && !c.running && c.cpuId.None? && c.ksig.None? && !c.ksigRestore &&
      c.cpuTime == 0
    case Reap(id) => id in s.contexts && !s.contexts[id].running
    case Happen(id, e) => id in s.contexts && !e.Visit? && !e.SwitchIn? && !e.SwitchOut?
  }

  function Step(s: Sched, op: SchedOp): Sched {
    if !Enabled(s, op) then s else
      match op
      case SwitchOn(cpu, now, signalStack) => Switch(s, cpu, now, signalStack)
      case Boot(cpu) =>
        Sched(s.contexts[cpu + 1 :=
          NEW_CONTEXT.(status := Runnable, running := true, cpuId := Some(cpu), affinity := Some(cpu))],
              s.current[cpu := cpu + 1])
      case Create(id, c) => s.(contexts := s.contexts[id := c])
      case Reap(id) => s.(contexts := s.contexts - {id})
      case Happen(id, e) => s.(contexts := s.contexts[id := Apply(s.contexts[id], e)])
  }

  lemma EventLooks(c: Context, e: Event)
    requires !e.Visit? && !e.SwitchIn? && !e.SwitchOut? && c.Sound()
    ensures var r := Apply(c, e); r.running == c.running && r.cpuId == c.cpuId && r.Sound()
  {
    hide Context.Sound;
    ApplySound(c, e);
  }

  lemma ValidSound(s: Sched, id: nat)
    requires s.Valid() && id in s.contexts
    ensures s.contexts[id].Sound()
  {
  }

  lemma ReplaceValid(s: Sched, id: nat, c: Context)
    requires s.Valid() && id in s.contexts && c.Sound()
    requires c.running == s.contexts[id].running && c.cpuId == s.contexts[id].cpuId
    ensures s.(contexts := s.contexts[id := c]).Valid()
  {
  }

  lemma AddIdleValid(s: Sched, id: nat, c: Context)
    requires s.Valid() && id !in s.contexts && c.Sound() && !c.running
    ensures s.(contexts := s.contexts[id := c]).Valid()
  {
  }

  lemma BootValid(s: Sched, cpu: nat, id: nat, c: Context)
    requires s.Valid() && cpu !in s.current && id !in s.contexts && c.Sound() && c.running && c.cpuId == Some(cpu)
    ensures Sched(s.contexts[id := c], s.current[cpu := id]).Valid()
  {
  }

  lemma ReapValid(s: Sched, id: nat)
    requires s.Valid() && id in s.contexts && !s.contexts[id].running
    ensures s.(contexts := s.contexts - {id}).Valid()
  {
  }

  lemma StepValid(s: Sched, op: SchedOp)
    requires s.Valid()
    ensures Step(s, op).Valid()
  {
    hide Sched.Valid, Apply, Switch;
    if Enabled(s, op) {
      match op
      case SwitchOn(cpu, now, signalStack) => SwitchValid(s, cpu, now, signalStack);
      case Boot(cpu) => BootValid(s, cpu, cpu + 1, Step(s, op).contexts[cpu + 1]);
      case Create(id, c) => AddIdleValid(s, id, c);
      case Reap(id) => ReapValid(s, id);
      case Happen(id, e) =>
        ValidSound(s, id);
        EventLooks(s.contexts[id], e);
        ReplaceValid(s, id, Apply(s.contexts[id], e));
    }
  }

  // Every run from a machine with no context and no CPU up keeps the invariant.
  ghost function StateAfter(ops: seq<SchedOp>): (s: Sched)
    ensures s.Valid()
  {
    if ops == [] then Sched(map[], map[]) else
      var prev := StateAfter(ops[..|ops| - 1]);
      StepValid(prev, ops[|ops| - 1]);
      Step(prev, ops[|ops| - 1])
  }

  // In every reachable state, each CPU's current context is the only running context it has claimed.
  lemma OneRunningPerCpu(ops: seq<SchedOp>, cpu: nat, id: nat)
    requires var s := StateAfter(ops); cpu in s.current && id in s.contexts
    ensures var s := StateAfter(ops);
            (s.contexts[id].running && s.contexts[id].cpuId == Some(cpu)) <==> s.current[cpu] == id
  {
  }

  ghost function Run(s: Sched, ops: seq<SchedOp>): Sched {
    if ops == [] then s else Step(Run(s, ops[..|ops| - 1]), ops[|ops| - 1])
  }

  lemma StepKeepsClaims(s: Sched, op: SchedOp, id: nat)
    requires s.Valid() && id in s.contexts && op != Reap(id)
    ensures id in Step(s, op).contexts
    ensures s.contexts[id].cpuId.Some? ==> Step(s, op).contexts[id].cpuId == s.contexts[id].cpuId
  {
    hide Apply, Switch;
    if Enabled(s, op) {
      match op
      case SwitchOn(cpu, now, signalStack) => SwitchValid(s, cpu, now, signalStack);
      case Happen(i, e) => EventLooks(s.contexts[i], e);
      case _ =>
    }
  }

  // Once claimed, a context stays with its CPU for the rest of its life.
  lemma {:induction false} ClaimedForLife(s: Sched, ops: seq<SchedOp>, id: nat)
    requires s.Valid() && id in s.contexts && s.contexts[id].cpuId.Some? && Reap(id) !in ops
    ensures Run(s, ops).Valid() && id in Run(s, ops).contexts
    ensures Run(s, ops).contexts[id].cpuId == s.contexts[id].cpuId
    decreases |ops|
  {
    hide Step, Sched.Valid;
    if ops != [] {
      var n := |ops| - 1;
      ClaimedForLife(s, ops[..n], id);
      StepValid(Run(s, ops[..n]), ops[n]);
      StepKeepsClaims(Run(s, ops[..n]), ops[n], id);
    }
  }

  // Before a switch on the CPU, the context is eligible; the kernel does not panic; the switch passes it over.
  ghost predicate PassesOver(s: Sched, op: SchedOp, cpu: nat, t: nat, m: nat) {
    && s.Active(cpu) && Bounded(s.contexts.Keys, m)
    && (op.SwitchOn? && op.cpu == cpu ==>
          && t in s.contexts && Eligible(s.contexts[t], cpu, op.now)
          && ScanOn(s, cpu, op.now).1 != Panicked
          && cpu in Step(s, op).current && Step(s, op).current[cpu] != t)
  }

  function SwitchesOn(ops: seq<SchedOp>, cpu: nat): nat {
    if ops == [] then 0 else
      SwitchesOn(ops[..|ops| - 1], cpu) + if ops[|ops| - 1].SwitchOn? && ops[|ops| - 1].cpu == cpu then 1 else 0
  }

  lemma StepApproaches(s: Sched, op: SchedOp, cpu: nat, t: nat, m: nat)
    requires s.Valid() && PassesOver(s, op, cpu, t, m) && t != s.current[cpu] && 0 < Distance(s.current[cpu], t, m)
    ensures cpu in Step(s, op).current && Step(s, op).current[cpu] != t
    ensures var d := Distance(Step(s, op).current[cpu], t, m);
            0 < d && if op.SwitchOn? && op.cpu == cpu then d < Distance(s.current[cpu], t, m)
              else d == Distance(s.current[cpu], t, m)
  {
    hide Apply, Switch, ScanOn, Eligible, Distance;
    if Enabled(s, op) && op.SwitchOn? {
      SwitchValid(s, op.cpu, op.now, op.signalStack);
      if op.cpu == cpu {
        SwitchApproaches(s, cpu, op.now, op.signalStack, t, m);
      }
    }
  }

  // Bounded bypass: whatever else happens, a context that is eligible at every switch on the CPU is
  // passed over fewer times than its distance from the context current at the start.
  lemma {:induction false} BoundedBypass(s: Sched, ops: seq<SchedOp>, cpu: nat, t: nat, m: nat)
    requires s.Valid() && s.Active(cpu) && t != s.current[cpu] && s.current[cpu] < m
    requires forall i :: 0 <= i < |ops| ==> PassesOver(Run(s, ops[..i]), ops[i], cpu, t, m)
    ensures Run(s, ops).Valid() && cpu in Run(s, ops).current && Run(s, ops).current[cpu] != t
    ensures 0 < Distance(Run(s, ops).current[cpu], t, m) <= Distance(s.current[cpu], t, m) - SwitchesOn(ops, cpu)
    decreases |ops|
  {
    hide Step, Sched.Valid, PassesOver, Bounded;
    if ops != [] {
      var n := |ops| - 1;
      assert forall i :: 0 <= i < n ==> ops[..n][..i] == ops[..i] && ops[..n][i] == ops[i];
      assert ops[..n] == ops[..|ops| - 1];
      assert PassesOver(Run(s, ops[..n]), ops[n], cpu, t, m);
      BoundedBypass(s, ops[..n], cpu, t, m);
      StepValid(Run(s, ops[..n]), ops[n]);
      StepApproaches(Run(s, ops[..n]), ops[n], cpu, t, m);
    }
  }

  /// What a run is to one context

  // The events of one step for context `id`.
  ghost function EventsOf(s: Sched, op: SchedOp, id: nat): seq<Event>
    requires id in s.contexts
  {
    match op
    case Happen(i, e) => if i == id && Enabled(s, op) then [e] else []
    case SwitchOn(cpu, now, signalStack) =>
      if !s.Active(cpu) then [] else
        var found := ScanOn(s, cpu, now).1;
        if found.Next? && id == found.id then [Visit(cpu, now), SwitchIn(signalStack, now)]
        else if id == s.current[cpu] then (if found.Next? then [SwitchOut(now)] else [])
        else if ScanOn(s, cpu, now).0[id] == s.contexts[id] then [] else [Visit(cpu, now)]
    case _ => []
  }

  // A switch is a look and a delivery for the context it switches to, a charge for the one it leaves, and
  // at most a look for every other one.
  lemma SwitchIsEvents(s: Sched, cpu: nat, now: nat, signalStack: nat, id: nat)
    requires s.Active(cpu) && id in s.contexts && s.contexts[id].Sound() && s.contexts[id].kstack.Some?
    ensures id in Switch(s, cpu, now, signalStack).contexts
    ensures Switch(s, cpu, now, signalStack).contexts[id] ==
            After(s.contexts[id], EventsOf(s, SwitchOn(cpu, now, signalStack), id))
  {
    hide Scan, ScanOn, CyclicOrder, UpdateRunnable, Panics, Eligible, SwitchedIn, SwitchedOut, Context.Sound, After;
    var n := ScanOnLooks(s, cpu, now);
    var (cs, found) := ScanOn(s, cpu, now);
    var c := s.contexts[id];
    var events := EventsOf(s, SwitchOn(cpu, now, signalStack), id);
    StackNeverPanics(c, cpu);
    VisitedOrNot(s, cpu, now, n, id);
    AfterFew(c, Visit(cpu, now), SwitchIn(signalStack, now));
    AfterFew(c, SwitchOut(now), Visit(cpu, now));
  }

  // The scan either leaves a context alone or looks at it.
  lemma VisitedOrNot(s: Sched, cpu: nat, now: nat, n: nat, id: nat)
    requires s.Active(cpu) && id in s.contexts && !Panics(s.contexts[id], cpu)
    requires StopsAt(s.contexts, CyclicOrder(s.contexts.Keys, s.current[cpu]), cpu, now, n, ScanOn(s, cpu, now))
    ensures var (cs, found) := ScanOn(s, cpu, now);
            && (cs[id] == s.contexts[id] || cs[id] == UpdateRunnable(s.contexts[id], cpu, now).0)
            && (found.Next? && found.id == id ==> cs[id] == UpdateRunnable(s.contexts[id], cpu, now).0)
  {
    hide Scan, ScanOn, CyclicOrder, UpdateRunnable, Panics, Eligible;
    var ids := CyclicOrder(s.contexts.Keys, s.current[cpu]);
    if id in ids[..n] {
      var i :| 0 <= i < n && ids[i] == id;
    }
  }

  lemma AfterFew(c: Context, a: Event, b: Event)
    requires c.Sound() && c.kstack.Some?
    ensures After(c, []) == c
    ensures a.Visit? ==> !Panics(c, a.cpu)
    ensures After(c, [a]) == Apply(c, a)
    ensures b.Visit? ==> !Panics(Apply(c, a), b.cpu)
    ensures After(c, [a, b]) == Apply(Apply(c, a), b)
  {
    hide Apply, Context.Sound, Panics;
    assert [a][..0] == [] && [a, b][..1] == [a];
    AfterSteps(c, []);
    AfterSteps(c, [a]);
    AfterSteps(c, [a, b]);
  }

  lemma StepIsEvents(s: Sched, op: SchedOp, id: nat)
    requires s.Valid() && id in s.contexts && s.contexts[id].kstack.Some? && op != Reap(id)
    ensures id in Step(s, op).contexts && s.contexts[id].Sound()
    ensures Step(s, op).contexts[id] == After(s.contexts[id], EventsOf(s, op, id))
  {
    hide Apply, Switch, ScanOn, After, Context.Sound, Panics, Sched.Valid;
    ValidSound(s, id);
    AfterFew(s.contexts[id], Return, Return);
    if op.Happen? && Enabled(s, op) {
      AfterFew(s.contexts[id], op.event, Return);
    } else if op.SwitchOn? && Enabled(s, op) {
      SwitchIsEvents(s, op.cpu, op.now, op.signalStack, id);
    }
  }

  // Everything that happens to a context.
  ghost function EventsIn(s: Sched, ops: seq<SchedOp>, id: nat): seq<Event> {
    if ops == [] then [] else
      var n := |ops| - 1;
      var prev := Run(s, ops[..n]);
      EventsIn(s, ops[..n], id) + if id in prev.contexts then EventsOf(prev, ops[n], id) else []
  }

  lemma {:induction false} AfterJoin(c: Context, a: seq<Event>, b: seq<Event>)
    requires c.Sound() && c.kstack.Some?
    ensures After(c, a + b) == After(After(c, a), b)
    decreases |b|
  {
    hide After, Apply, Context.Sound, Panics, Delivered;
    AfterSteps(After(c, a), b);
    if b == [] {
      assert a + b == a;
    } else {
      var n := |b| - 1;
      assert (a + b)[..|a + b| - 1] == a + b[..n];
      AfterJoin(c, a, b[..n]);
      AfterSteps(c, a + b);
    }
  }

  // In every run of the whole system, what becomes of a context is what becomes of it alone under its
  // events, so all that holds of one context through events holds of each in the system.
  lemma {:induction false} ContextHistory(s: Sched, ops: seq<SchedOp>, id: nat)
    requires s.Valid() && id in s.contexts && s.contexts[id].kstack.Some? && Reap(id) !in ops
    ensures Run(s, ops).Valid() && id in Run(s, ops).contexts && s.contexts[id].Sound()
    ensures Run(s, ops).contexts[id] == After(s.contexts[id], EventsIn(s, ops, id))
    decreases |ops|
  {
    hide Step, Sched.Valid, After, Apply, EventsOf, Context.Sound;
    ValidSound(s, id);
    if ops == [] {
      AfterFew(s.contexts[id], Return, Return);
    } else {
      var n := |ops| - 1;
      ContextHistory(s, ops[..n], id);
      var prev := Run(s, ops[..n]);
      StepValid(prev, ops[n]);
      StepIsEvents(prev, ops[n], id);
      AfterJoin(s.contexts[id], EventsIn(s, ops[..n], id), EventsOf(prev, ops[n], id));
    }
  }

  // So a context's signals come in order in every run of the system.
  lemma SystemSignalsInOrder(s: Sched, ops: seq<SchedOp>, id: nat)
    requires s.Valid() && id in s.contexts && s.contexts[id].kstack.Some? && Reap(id) !in ops
    ensures id in Run(s, ops).contexts && s.contexts[id].Sound()
    ensures var c, events := s.contexts[id], EventsIn(s, ops, id);
            c.pending + Sent(events) == Delivered(c, events) + Run(s, ops).contexts[id].pending
  {
    hide Run, EventsIn, Sched.Valid;
    ContextHistory(s, ops, id);
    SignalsInOrder(s.contexts[id], EventsIn(s, ops, id));
  }

  // A CPU comes up with one context, running and bound to it, and touches no other.
  lemma BootExact(s: Sched, cpu: nat)
    requires Enabled(s, Boot(cpu))
    ensures var r := Step(s, Boot(cpu));
            && r.current == s.current[cpu := cpu + 1] && r.contexts.Keys == s.contexts.Keys + {cpu + 1}
            && (forall id :: id in s.contexts ==> r.contexts[id] == s.contexts[id])
            && var c := r.contexts[cpu + 1];
               c.running && c.status == Runnable && c.cpuId == Some(cpu) && c.affinity == Some(cpu) && c.cpuTime == 0
  {
  }

  /// The loop

  class Kernel {
    var contexts: ContextList
    var current: map<nat, nat>

    ghost function State(): Sched
      reads this
    {
      Sched(contexts, current)
    }

    constructor ()
      ensures State() == StateAfter([])
    {
      contexts, current := map[], map[];
    }

    // Returns whether another context was switched to.
    method Switch(cpu: nat, now: nat, signalStack: nat) returns (switched: bool)
      requires State().Valid() && State().Active(cpu)
      modifies this
      ensures State() == Step(old(State()), SwitchOn(cpu, now, signalStack))
      ensures State().Valid()
      ensures switched <==> current[cpu] != old(current[cpu])
    {
      hide Sched.Valid, Eligible, Mine, Panics, Context.Sound, CyclicOrder, UpdateRunnable, Switched, SwitchedIn,
        SwitchedOut, Apply;
      ghost var s := State();
      SwitchValid(s, cpu, now, signalStack);
      var prev := current[cpu];
      var order := CyclicOrder(contexts.Keys, prev);
      var found := Nothing;
      var i := 0;
      while i < |order| && found == Nothing
        invariant 0 <= i <= |order| && current == s.current
        invariant contexts.Keys == s.contexts.Keys
        invariant found == Nothing ==> Scan(contexts, order[i..], cpu, now) == ScanOn(s, cpu, now)
        invariant found != Nothing ==> (contexts, found) == ScanOn(s, cpu, now)
        decreases |order| - i, found == Nothing
      {
        var id := order[i];
        assert order[i..][1..] == order[i + 1..];
        if Panics(contexts[id], cpu) {
          found := Panicked;
        } else {
          var (c, eligible) := UpdateRunnable(contexts[id], cpu, now);
          contexts := contexts[id := c];
          if eligible {
            found := Next(id);
          }
          i := i + 1;
        }
      }
      switched := found.Next?;
      if switched {
        contexts := Switched(contexts, prev, found.id, signalStack, now);
        current := current[cpu := found.id];
      }
    }
  }
}
