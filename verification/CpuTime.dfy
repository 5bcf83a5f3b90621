// CPU time accounting over runs of the scheduler: the time charged to the contexts of a CPU, reaped
// ones included, is the time at which its current context was switched to.
module CpuTime {
  import opened Regions
  import opened Contexts
  import opened Scheduling

  // What a context was charged for `cpu`.
  function Share(c: Context, cpu: nat): nat {
    if c.cpuId == Some(cpu) then c.cpuTime else 0
  }

  ghost function Total(cs: ContextList, cpu: nat): nat {
    if cs == map[] then 0 else
      var id :| id in cs;
      Share(cs[id], cpu) + Total(cs - {id}, cpu)
  }

  lemma {:induction false} TotalSplit(cs: ContextList, cpu: nat, id: nat)
    requires id in cs
    ensures Total(cs, cpu) == Share(cs[id], cpu) + Total(cs - {id}, cpu)
    decreases |cs|
  {
    hide Share;
    var first :| first in cs && Total(cs, cpu) == Share(cs[first], cpu) + Total(cs - {first}, cpu);
    if first != id {
      TotalSplit(cs - {first}, cpu, id);
      TotalSplit(cs - {id}, cpu, first);
      assert cs - {first} - {id} == cs - {id} - {first};
    }
  }

  lemma TotalUpdate(cs: ContextList, cpu: nat, id: nat, c: Context)
    ensures Total(cs[id := c], cpu) == Share(c, cpu) + Total(cs - {id}, cpu)
  {
    hide Share, Total;
    TotalSplit(cs[id := c], cpu, id);
    assert cs[id := c] - {id} == cs - {id};
  }

  lemma {:induction false} TotalSame(a: ContextList, b: ContextList, cpu: nat)
    requires a.Keys == b.Keys && forall id :: id in a ==> Share(a[id], cpu) == Share(b[id], cpu)
    ensures Total(a, cpu) == Total(b, cpu)
    decreases |a|
  {
    hide Share;
    if a != map[] {
      var id :| id in a;
      TotalSplit(a, cpu, id);
      TotalSplit(b, cpu, id);
      TotalSame(a - {id}, b - {id}, cpu);
    } else {
      assert b == map[];
    }
  }

  // Only CPUs that are up have claimed contexts, and only claimed contexts were ever charged.
  ghost predicate ChargedWhereClaimed(s: Sched) {
    forall id :: id in s.contexts ==>
      if s.contexts[id].cpuId.Some? then s.contexts[id].cpuId.value in s.current else s.contexts[id].cpuTime == 0
  }

  // `lost` is what reaped contexts had been charged.
  ghost predicate Balanced(s: Sched, cpu: nat, lost: nat) {
    && s.Valid() && ChargedWhereClaimed(s)
    && (if cpu in s.current then Total(s.contexts, cpu) + lost == s.contexts[s.current[cpu]].switchTime
        else Total(s.contexts, cpu) + lost == 0)
  }

  // A look at a context moves no time, and a claim by another CPU moves none here.
  ghost predicate SameTimes(c: Context, r: Context, cpu: nat) {
    && r.cpuTime == c.cpuTime && r.switchTime == c.switchTime
    && (r.cpuId == c.cpuId || (c.cpuId.None? && r.cpuId == Some(cpu)))
  }

  lemma UpdateKeepsTimes(c: Context, cpu: nat, now: nat)
    requires !Panics(c, cpu)
    ensures SameTimes(c, UpdateRunnable(c, cpu, now).0, cpu)
  {
  }

  lemma ScanKeepsTimes(s: Sched, cpu: nat, now: nat)
    requires s.Active(cpu)
    ensures forall id :: id in s.contexts ==> SameTimes(s.contexts[id], ScanOn(s, cpu, now).0[id], cpu)
  {
    hide Scan, ScanOn, CyclicOrder, UpdateRunnable, Panics, Eligible, SameTimes;
    var ids := CyclicOrder(s.contexts.Keys, s.current[cpu]);
    var n := ScanOnLooks(s, cpu, now);
    forall id | id in s.contexts
      ensures SameTimes(s.contexts[id], ScanOn(s, cpu, now).0[id], cpu)
    {
      Unlooked(s.contexts[id], cpu);
      if id in ids[..n] {
        var i :| 0 <= i < n && ids[i] == id;
        UpdateKeepsTimes(s.contexts[id], cpu, now);
      } else if n < |ids| && id == ids[n] && !Panics(s.contexts[id], cpu) {
        UpdateKeepsTimes(s.contexts[id], cpu, now);
      }
    }
  }

  lemma Unlooked(c: Context, cpu: nat)
    ensures SameTimes(c, c, cpu)
  {
  }

  lemma LooksKeepBalance(s: Sched, looker: nat, cs: ContextList, cpu: nat, lost: nat)
    requires Balanced(s, cpu, lost) && looker in s.current && cs.Keys == s.contexts.Keys && s.(contexts := cs).Valid()
    requires forall id :: id in s.contexts ==> SameTimes(s.contexts[id], cs[id], looker)
    ensures Balanced(s.(contexts := cs), cpu, lost)
  {
    hide Total, Context.Sound;
    TotalSame(s.contexts, cs, cpu);
  }

  lemma SwitchedTimes(cs: ContextList, prev: nat, next: nat, signalStack: nat, now: nat)
    requires prev in cs && next in cs && prev != next && cs[prev].switchTime <= now
    ensures var r := Switched(cs, prev, next, signalStack, now);
            && r[prev].cpuTime == cs[prev].cpuTime + (now - cs[prev].switchTime) && r[prev].cpuId == cs[prev].cpuId
            && r[next].cpuTime == cs[next].cpuTime && r[next].cpuId == cs[next].cpuId && r[next].switchTime == now
            && r.Keys == cs.Keys && forall id :: id in cs && id != prev && id != next ==> r[id] == cs[id]
  {
  }

  // The total of a CPU changes by what its leaving context is charged.
  lemma SwitchedTotal(cs: ContextList, prev: nat, next: nat, signalStack: nat, now: nat, cpu: nat)
    requires prev in cs && next in cs && prev != next && cs[prev].switchTime <= now
    ensures Total(Switched(cs, prev, next, signalStack, now), cpu) ==
            Total(cs, cpu) + if cs[prev].cpuId == Some(cpu) then now - cs[prev].switchTime else 0
  {
    hide Total, Switched;
    var r := Switched(cs, prev, next, signalStack, now);
    SwitchedTimes(cs, prev, next, signalStack, now);
    TotalSplit(cs, cpu, prev);
    TotalSplit(r, cpu, prev);
    TotalSame(cs - {prev}, r - {prev}, cpu);
  }

  lemma SwitchedBalanced(s: Sched, on: nat, next: nat, now: nat, signalStack: nat, cpu: nat, lost: nat)
    requires Balanced(s, cpu, lost) && s.Active(on) && s.contexts[s.current[on]].switchTime <= now
    requires next in s.contexts && !s.contexts[next].running && s.contexts[next].cpuId == Some(on)
    ensures Balanced(Sched(Switched(s.contexts, s.current[on], next, signalStack, now), s.current[on := next]), cpu,
              lost)
  {
    hide Total, Switched, Context.Sound;
    SwitchedValid(s, on, next, now, signalStack);
    SwitchedTimes(s.contexts, s.current[on], next, signalStack, now);
    SwitchedTotal(s.contexts, s.current[on], next, signalStack, now, cpu);
  }

  // The context that left was charged the time since it was switched to, and nothing else was charged.
  ghost predicate ChargedFor(s: Sched, r: Sched, on: nat, now: nat) {
    && r.contexts.Keys == s.contexts.Keys && s.Active(on) && on in r.current
    && forall id :: id in s.contexts ==>
         r.contexts[id].cpuTime == s.contexts[id].cpuTime +
         if id == s.current[on] && r.current[on] != id then now - s.contexts[id].switchTime else 0
  }

  lemma SwitchBalanced(s: Sched, on: nat, now: nat, signalStack: nat, cpu: nat, lost: nat)
    requires Balanced(s, cpu, lost) && s.Active(on) && s.contexts[s.current[on]].switchTime <= now
    ensures Balanced(Switch(s, on, now, signalStack), cpu, lost)
    ensures ChargedFor(s, Switch(s, on, now, signalStack), on, now)
  {
    hide ScanOn, Total, Switched, StopsAt, Sched.Valid, ChargedWhereClaimed, Eligible, CyclicOrder;
    var n := ScanOnLooks(s, on, now);
    var (cs, found) := ScanOn(s, on, now);
    LookedValid(s, cs);
    ScanKeepsTimes(s, on, now);
    LooksKeepBalance(s, on, cs, cpu, lost);
    if found.Next? {
      EligibleIdle(s.contexts[found.id], on, now);
      SwitchedTimes(cs, s.current[on], found.id, signalStack, now);
      SwitchedBalanced(s.(contexts := cs), on, found.id, now, signalStack, cpu, lost);
    }
  }

  /// Runs

  // What the operation takes out of the books.
  function Lost(s: Sched, op: SchedOp, cpu: nat): nat {
    if op.Reap? && Enabled(s, op) then Share(s.contexts[op.id], cpu) else 0
  }

  // The clock does not run backwards between two switches of a CPU.
  predicate OnTime(s: Sched, op: SchedOp) {
    op.SwitchOn? && s.Active(op.cpu) ==> s.contexts[s.current[op.cpu]].switchTime <= op.now
  }

  lemma EventKeepsTimes(c: Context, e: Event)
    requires !e.Visit? && !e.SwitchIn? && !e.SwitchOut?
    ensures var r := Apply(c, e); r.cpuTime == c.cpuTime && r.switchTime == c.switchTime && r.cpuId == c.cpuId
  {
  }

  lemma StepBalanced(s: Sched, op: SchedOp, cpu: nat, lost: nat)
    requires Balanced(s, cpu, lost) && OnTime(s, op) && s.Valid()
    ensures Balanced(Step(s, op), cpu, lost + Lost(s, op, cpu))
  {
    hide Balanced, Share, Step;
    StepValid(s, op);
    if !Enabled(s, op) {
      StepDisabled(s, op);
    } else {
      match op
      case SwitchOn(on, now, signalStack) => SwitchStepBalanced(s, op, cpu, lost);
      case Boot(on) => AddBalanced(s, op, on + 1, cpu, lost);
      case Create(id, c) => AddBalanced(s, op, id, cpu, lost);
      case Reap(id) => ReapBalanced(s, id, cpu, lost);
      case Happen(id, e) => EventBalanced(s, id, e, cpu, lost);
    }
  }

  lemma StepDisabled(s: Sched, op: SchedOp)
    requires !Enabled(s, op)
    ensures Step(s, op) == s
  {
  }

  lemma SwitchStepBalanced(s: Sched, op: SchedOp, cpu: nat, lost: nat)
    requires Balanced(s, cpu, lost) && OnTime(s, op) && op.SwitchOn? && Enabled(s, op)
    ensures Balanced(Step(s, op), cpu, lost)
  {
    hide Balanced, Switch;
    SwitchBalanced(s, op.cpu, op.now, op.signalStack, cpu, lost);
  }

  // A context that was never charged changes no total.
  lemma AddBalanced(s: Sched, op: SchedOp, id: nat, cpu: nat, lost: nat)
    requires Balanced(s, cpu, lost) && Enabled(s, op) && Step(s, op).Valid()
    requires (op.Boot? && id == op.cpu + 1) || (op.Create? && id == op.id)
    ensures Balanced(Step(s, op), cpu, lost)
  {
    hide Total, Switch, Apply, Context.Sound;
    TotalUpdate(s.contexts, cpu, id, Step(s, op).contexts[id]);
    assert s.contexts - {id} == s.contexts;
  }

  lemma ReapBalanced(s: Sched, id: nat, cpu: nat, lost: nat)
    requires Balanced(s, cpu, lost) && Enabled(s, Reap(id)) && Step(s, Reap(id)).Valid()
    ensures Balanced(Step(s, Reap(id)), cpu, lost + Share(s.contexts[id], cpu))
  {
    hide Total, Switch, Apply, Context.Sound, Share;
    TotalSplit(s.contexts, cpu, id);
  }

  lemma EventBalanced(s: Sched, id: nat, e: Event, cpu: nat, lost: nat)
    requires Balanced(s, cpu, lost) && Enabled(s, Happen(id, e)) && Step(s, Happen(id, e)).Valid()
    ensures Balanced(Step(s, Happen(id, e)), cpu, lost)
  {
    hide Total, Switch, Apply, Context.Sound;
    EventKeepsTimes(s.contexts[id], e);
    TotalSame(s.contexts, Step(s, Happen(id, e)).contexts, cpu);
  }

  ghost function LostSoFar(s: Sched, ops: seq<SchedOp>, cpu: nat): nat {
    if ops == [] then 0 else
      var n := |ops| - 1;
      LostSoFar(s, ops[..n], cpu) + Lost(Run(s, ops[..n]), ops[n], cpu)
  }

  const NOTHING_UP := Sched(map[], map[])

  // Over every run with a monotonic clock, a CPU's time since the clock started, up to the last switch,
  // is charged in full to the contexts it ran, and no time is charged twice.
  lemma {:induction false} TimeConserved(ops: seq<SchedOp>, cpu: nat)
    requires forall i :: 0 <= i < |ops| ==> OnTime(Run(NOTHING_UP, ops[..i]), ops[i])
    ensures Balanced(Run(NOTHING_UP, ops), cpu, LostSoFar(NOTHING_UP, ops, cpu))
    decreases |ops|
  {
    hide Step, Lost, OnTime;
    if ops != [] {
      var n := |ops| - 1;
      assert forall i :: 0 <= i < n ==> ops[..n][..i] == ops[..i] && ops[..n][i] == ops[i];
      TimeConserved(ops[..n], cpu);
      StepBalanced(Run(NOTHING_UP, ops[..n]), ops[n], cpu, LostSoFar(NOTHING_UP, ops[..n], cpu));
    }
  }
}
