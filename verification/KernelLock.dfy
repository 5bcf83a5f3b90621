// The re-entrant lock of the kernel's page tables, over the interleaved atomic accesses of all CPUs.
module KernelMappers {
  import opened Regions

  datatype Guard = Guard(cpu: nat, readOnly: bool)

  // Where a CPU is: between operations, after taking ownership in `lock_inner` and before counting,
  // or after counting down to zero in `drop` and before giving ownership up.
  datatype Phase = Idle | Acquired | Releasing

  datatype Lock = Lock(owner: Option<nat>, count: int, phases: map<nat, Phase>, guards: map<nat, Guard>)
  {
    function Phase(cpu: nat): Phase {
      if cpu in phases then phases[cpu] else Idle
    }

    // `get_mut` yields the mapper.
    predicate Writable(g: nat) {
      g in guards && !guards[g].readOnly
    }

    // `deref_mut` yields the mapper, whatever the guard.
    predicate Yields(g: nat) {
      g in guards
    }

    ghost predicate Valid() {
      && count == |guards|
      && (forall g :: g in guards ==> owner == Some(guards[g].cpu))
      && (forall g, h :: g in guards && h in guards && !guards[g].readOnly && !guards[h].readOnly ==> g == h)
      && (forall cpu: nat :: Phase(cpu) != Idle ==> owner == Some(cpu))
      && (forall cpu: nat :: Phase(cpu) == Releasing ==> count == 0)
      && (owner.Some? && Phase(owner.value) == Idle ==> count > 0)
    }
  }

  // `guard` names the guard that is created or dropped. A guard is dropped on the CPU that took it.
  datatype Action =
    | TakeOwner(cpu: nat)
    | CountUp(cpu: nat, guard: nat)
    | CountDown(cpu: nat, guard: nat)
    | GiveUpOwner(cpu: nat)

  predicate Enabled(l: Lock, a: Action) {
    match a
    case TakeOwner(cpu) => l.Phase(cpu) == Idle && (l.owner.None? || l.owner == Some(cpu))
    case CountUp(cpu, g) => l.Phase(cpu) == Acquired && g !in l.guards
    case CountDown(cpu, g) => l.Phase(cpu) == Idle && g in l.guards && l.guards[g].cpu == cpu
    case GiveUpOwner(cpu) => l.Phase(cpu) == Releasing
  }

  function Next(l: Lock, a: Action): Lock
    requires Enabled(l, a)
  {
    match a
    case TakeOwner(cpu) => l.(owner := Some(cpu), phases := l.phases[cpu := Acquired])
    case CountUp(cpu, g) =>
      l.(count := l.count + 1, phases := l.phases[cpu := Idle], guards := l.guards[g := Guard(cpu, l.count > 0)])
    case CountDown(cpu, g) =>
      l.(count := l.count - 1, phases := l.phases[cpu := if l.count == 1 then Releasing else Idle], guards :=
        l.guards - {g})
    case GiveUpOwner(cpu) => l.(owner := None, phases := l.phases[cpu := Idle])
  }

  lemma CountUpValid(l: Lock, cpu: nat, g: nat)
    requires l.Valid() && Enabled(l, CountUp(cpu, g))
    ensures Next(l, CountUp(cpu, g)).Valid()
  {
  }

  lemma CountDownValid(l: Lock, cpu: nat, g: nat)
    requires l.Valid() && Enabled(l, CountDown(cpu, g))
    ensures Next(l, CountDown(cpu, g)).Valid()
  {
    assert (l.guards - {g}).Keys == l.guards.Keys - {g};
  }

  lemma NextValid(l: Lock, a: Action)
    requires l.Valid() && Enabled(l, a)
    ensures Next(l, a).Valid()
  {
    match a
    case CountUp(cpu, g) => CountUpValid(l, cpu, g);
    case CountDown(cpu, g) => CountDownValid(l, cpu, g);
    case TakeOwner(cpu) =>
    case GiveUpOwner(cpu) =>
  }

  const UNLOCKED := Lock(None, 0, map[], map[])

  // An action that is not enabled spins, that is, changes nothing.
  ghost function LockAfter(run: seq<Action>): (l: Lock)
    ensures l.Valid()
  {
    if run == [] then UNLOCKED else
      var prev := LockAfter(run[..|run| - 1]);
      if Enabled(prev, run[|run| - 1]) then NextValid(prev, run[|run| - 1]); Next(prev, run[|run| - 1]) else prev
  }

  // Whatever the interleaving and the order of drops: live guards belong to one CPU, `get_mut` yields the
  // mapper of at most one of them, the count is their number, and once all are dropped the lock is free again.
  lemma LockSafe(run: seq<Action>, g: nat, h: nat)
    ensures var l := LockAfter(run);
            && (g in l.guards && h in l.guards ==> l.guards[g].cpu == l.guards[h].cpu)
            && (l.Writable(g) && l.Writable(h) ==> g == h)
            && l.count == |l.guards|
            && (l.guards == map[] && (forall cpu: nat :: l.Phase(cpu) == Idle) ==> l.owner.None? && l.count == 0)
  {
  }

  // A guard taken while another is live is read-only: `get_mut` yields only for an outermost lock.
  lemma OutermostWrites(run: seq<Action>, cpu: nat, g: nat)
    requires Enabled(LockAfter(run), CountUp(cpu, g))
    ensures Next(LockAfter(run), CountUp(cpu, g)).Writable(g) <==> LockAfter(run).guards == map[]
  {
  }

  // Dereferencing is not limited so: one guard at most yields the mapper iff the count is at most one.
  lemma DerefExclusiveIff(run: seq<Action>)
    ensures var l := LockAfter(run);
            (forall g, h :: l.Yields(g) && l.Yields(h) ==> g == h) <==> l.count <= 1
  {
    var l := LockAfter(run);
    if l.count <= 1 {
      forall g, h | l.Yields(g) && l.Yields(h)
        ensures g == h
      {
        AtMostOne(l.guards.Keys, g, h);
      }
    } else {
      var g :| g in l.guards;
      assert l.guards.Keys - {g} != {} by { assert |l.guards.Keys - {g}| == |l.guards.Keys| - 1; }
      var h :| h in l.guards.Keys - {g};
      assert l.Yields(g) && l.Yields(h);
    }
  }

  lemma AtMostOne(s: set<nat>, g: nat, h: nat)
    requires |s| <= 1 && g in s && h in s
    ensures g == h
  {
    assert |s - {g}| == |s| - 1;
    assert h !in s - {g};
  }

  // A lock taken twice by one CPU yields the mapper twice.
  lemma NestedLocksBothYield()
    ensures var l := LockAfter([TakeOwner(0), CountUp(0, 0), TakeOwner(0), CountUp(0, 1)]);
            l.Yields(0) && l.Yields(1)
  {
    hide Lock.Valid;
    var run := [TakeOwner(0), CountUp(0, 0), TakeOwner(0), CountUp(0, 1)];
    assert run[..3][..2] == run[..2] && run[..2][..1] == run[..1] && run[..1][..0] == [];
    assert LockAfter(run[..1]) == Lock(Some(0), 0, map[0 := Acquired], map[]);
    assert LockAfter(run[..2]) == Lock(Some(0), 1, map[0 := Idle], map[0 := Guard(0, false)]);
    assert LockAfter(run[..3]) == Lock(Some(0), 1, map[0 := Acquired], map[0 := Guard(0, false)]);
  }
}
