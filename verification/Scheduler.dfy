// One context: status, claims, wakeups and signals. Models `Context::{block, unblock}`,
// `update_runnable`, signal delivery in `switch`, `sigreturn` and the sending half of `kill`.
module Contexts {
  import opened Regions

  datatype Status = Runnable | Blocked | Stopped(sig: nat) | Exited(code: nat)

  // A kernel stack: its bytes, and the single-step flag of the user registers saved in it, which is
  // kept apart because it alone survives a restore.
  datatype Stack = Stack(bytes: seq<int>, singlestep: bool)

  // What is put aside while a signal handler runs. Register and FX contents are opaque.
  datatype Saved = Saved(arch: nat, kfx: nat, kstack: Option<Stack>, sig: nat)

  datatype Context = Context(
    status: Status,
    running: bool,
    cpuId: Option<nat>,
    affinity: Option<nat>,
    ptraceStop: bool,
    wake: Option<nat>,
    pending: seq<nat>,
    arch: nat,
    kfx: nat,
    kstack: Option<Stack>,
    regs: bool,
    ksig: Option<Saved>,
    ksigRestore: bool,
    handled: set<nat>,
    switchTime: nat,
    cpuTime: nat)
  {
    function Block(): Context {
      if status == Runnable then this.(status := Blocked) else this
    }

    function Unblock(): Context {
      if status == Blocked then this.(status := Runnable) else this
    }

    // The flag of the user registers that are current: those on the stack, or, while a signal
    // without a user handler is processed, those put aside.
    function Singlestep(): bool {
      if !regs then false
      else if ksig.Some? && ksig.value.sig !in handled
        then ksig.value.kstack.Some? && ksig.value.kstack.value.singlestep
      else kstack.Some? && kstack.value.singlestep
    }

    // What was put aside can be put back.
    predicate Restorable() {
      ksig.Some? && kstack.Some? && ksig.value.kstack.Some? && |ksig.value.kstack.value.bytes| == |kstack.value.bytes|
    }

    ghost predicate Sound() {
      && (ksigRestore ==> ksig.Some?)
      && (ksig.Some? && kstack.Some? ==> Restorable())
    }
  }

  /// update_runnable

  function Restore(c: Context): (r: Context)
    requires c.Restorable()
  {
    var saved := c.ksig.value;
    var stack := saved.kstack.value;
    c.(arch := saved.arch,
       kfx := saved.kfx,
       kstack := Some(if c.regs then stack.(singlestep := c.Singlestep()) else stack),
       ksig := None,
       ksigRestore := false).Unblock()
  }

  function Claim(c: Context, cpu: nat): Context {
    if c.cpuId.None? && (c.affinity.None? || c.affinity.value == cpu) then c.(cpuId := Some(cpu)) else c
  }

  function Wake(c: Context, now: nat): Context {
    var c1 := if c.status == Blocked && c.pending != [] then c.Unblock() else c;
    if c1.status == Blocked && c1.wake.Some? && now >= c1.wake.value then c1.(wake := None).Unblock() else c1
  }

  // The context may be looked at by `cpu`: idle, not traced, and claimed by `cpu` or free for it.
  predicate Mine(c: Context, cpu: nat) {
    && !c.running && !c.ptraceStop
    && (c.cpuId == Some(cpu) || (c.cpuId.None? && (c.affinity.None? || c.affinity == Some(cpu))))
  }

  // `cpu` may run the context at time `now`.
  predicate Eligible(c: Context, cpu: nat, now: nat) {
    && Mine(c, cpu)
    && (c.status == Runnable ||
        (c.status == Blocked && (c.ksigRestore || c.pending != [] || (c.wake.Some? && c.wake.value <= now))))
  }

  // The kernel panics on a restore for which nothing, or no stack, was put aside.
  predicate Panics(c: Context, cpu: nat) {
    Mine(c, cpu) && c.ksigRestore && !c.Restorable()
  }

  // Returns the updated context and whether it may run on `cpu` now.
  function UpdateRunnable(c: Context, cpu: nat, now: nat): (r: (Context, bool))
    requires !Panics(c, cpu)
    ensures r.1 <==> Eligible(c, cpu, now)
    ensures r.1 ==> r.0.cpuId == Some(cpu) && r.0.status == Runnable
    ensures r.0.running == c.running && r.0.pending == c.pending && r.0.kstack.Some? == c.kstack.Some?
    ensures c.cpuId.Some? || !Mine(c, cpu) ==> r.0.cpuId == c.cpuId
    ensures Mine(c, cpu) ==> r.0.cpuId == Some(cpu)
    ensures !Mine(c, cpu) ==> r.0 == c
    ensures c.Sound() ==> r.0.Sound()
  {
    if c.running || c.ptraceStop then (c, false) else
      var c1 := Claim(c, cpu);
      if c1.cpuId != Some(cpu) then (c1, false) else
        var c2 := Wake(if c1.ksigRestore then Restore(c1) else c1, now);
        (c2, c2.status == Runnable)
  }

  /// Delivery, sending and return

  function Deliver(c: Context, signalStack: nat): (r: Context) {
    if c.ksig.None? && c.pending != [] then
      c.(ksig := Some(Saved(c.arch, c.kfx, c.kstack, c.pending[0])), pending := c.pending[1..], arch := signalStack)
    else c
  }

  const SIGCONT: nat := 18

  function Kill(c: Context, sig: nat): Context {
    if sig == 0 then c
    else
      var c1 := c.(pending := c.pending + [sig]);
      if sig == SIGCONT && c1.status.Stopped? then c1.(status := Blocked) else c1
  }

  function Sigreturn(c: Context): Option<Context> {
    if c.ksig.Some? then Some(c.(ksigRestore := true).Block()) else None
  }

  /// One context through any sequence of events

  datatype Event =
    | Visit(cpu: nat, now: nat)
    | SwitchIn(signalStack: nat, now: nat)
    | SwitchOut(now: nat)
    | Execute(arch: nat, kfx: nat, stack: Stack, regs: bool)
    | Send(sig: nat)
    | Return
    | Sleep(until: Option<nat>)
    | Notify
    | Stop(sig: nat)
    | Trace(stop: bool)
    | SetHandled(handled: set<nat>)
    | SetAffinity(affinity: Option<nat>)

  function SwitchedIn(c: Context, signalStack: nat, now: nat): Context {
    Deliver(c.(running := true, switchTime := now), signalStack)
  }

  function SwitchedOut(c: Context, now: nat): Context {
    c.(running := false, cpuTime := c.cpuTime + if now >= c.switchTime then now - c.switchTime else 0)
  }

  // Executing code changes registers and stack contents at will, but not the size of the stack.
  function Apply(c: Context, e: Event): Context
    requires e.Visit? ==> !Panics(c, e.cpu)
  {
    match e
    case Visit(cpu, now) => UpdateRunnable(c, cpu, now).0
    case SwitchIn(signalStack, now) => SwitchedIn(c, signalStack, now)
    case SwitchOut(now) => SwitchedOut(c, now)
    case Execute(arch, kfx, stack, regs) =>
      if c.kstack.Some? && |stack.bytes| == |c.kstack.value.bytes|
        then c.(arch := arch, kfx := kfx, kstack := Some(stack), regs := regs) else c
    case Send(sig) => Kill(c, sig)
    case Return => var r := Sigreturn(c); if r.Some? then r.value else c
    case Sleep(until) => c.(wake := until).Block()
    case Notify => c.Unblock()
    case Stop(sig) => c.(status := Stopped(sig))
    case Trace(stop) => c.(ptraceStop := stop)
    case SetHandled(handled) => c.(handled := handled)
    case SetAffinity(affinity) => c.(affinity := affinity)
  }

  // No event loses what a restore needs, with a kernel stack or without one.
  lemma ApplySound(c: Context, e: Event)
    requires c.Sound() && (e.Visit? ==> !Panics(c, e.cpu))
    ensures Apply(c, e).Sound() && Apply(c, e).kstack.Some? == c.kstack.Some?
  {
  }

  lemma StackNeverPanics(c: Context, cpu: nat)
    requires c.Sound() && c.kstack.Some?
    ensures !Panics(c, cpu)
  {
  }

  // The event takes back what was put aside.
  predicate Restores(c: Context, e: Event) {
    e.Visit? && Mine(c, e.cpu) && c.ksigRestore
  }

  // The state of one context over a run of events.
  ghost function After(c: Context, events: seq<Event>): (r: Context)
    requires c.Sound() && c.kstack.Some?
    ensures r.Sound() && r.kstack.Some?
  {
    if events == [] then c else
      var prev := After(c, events[..|events| - 1]);
      ApplySound(prev, events[|events| - 1]);
      Apply(prev, events[|events| - 1])
  }

  lemma ApplyKeepsSaved(c: Context, e: Event)
    requires c.ksig.Some? && !Restores(c, e)
    ensures Apply(c, e).ksig == c.ksig
  {
  }

  function SignalSent(e: Event): seq<nat> {
    if e.Send? && e.sig != 0 then [e.sig] else []
  }

  function SignalDelivered(c: Context, e: Event): seq<nat> {
    if e.SwitchIn? && c.ksig.None? && c.pending != [] then [c.pending[0]] else []
  }

  lemma ApplyPending(c: Context, e: Event)
    requires e.Visit? ==> !Panics(c, e.cpu)
    ensures c.pending + SignalSent(e) == SignalDelivered(c, e) + Apply(c, e).pending
  {
    hide UpdateRunnable, Panics, Mine;
    if e.Send? {
    } else if e.SwitchIn? {
    } else {
      assert Apply(c, e).pending == c.pending;
    }
  }

  // Signals sent to a context, in order.
  ghost function Sent(events: seq<Event>): seq<nat> {
    if events == [] then [] else
      Sent(events[..|events| - 1]) + SignalSent(events[|events| - 1])
  }

  // Signals delivered to it, in order.
  ghost function Delivered(c: Context, events: seq<Event>): seq<nat>
    requires c.Sound() && c.kstack.Some?
  {
    if events == [] then [] else
      var n := |events| - 1;
      Delivered(c, events[..n]) + SignalDelivered(After(c, events[..n]), events[n])
  }

  // Nothing touches what was put aside until it is taken back, and no second signal is delivered.
  lemma {:induction false} SavedUntilRestored(c: Context, events: seq<Event>)
    requires c.Sound() && c.kstack.Some? && c.ksig.Some?
    requires forall i :: 0 <= i < |events| ==> !Restores(After(c, events[..i]), events[i])
    ensures After(c, events).ksig == c.ksig
    ensures Delivered(c, events) == []
    decreases |events|
  {
    hide Apply, Restores, Panics, Mine, Context.Sound, After, Delivered, Context.Restorable, SignalDelivered;
    AfterSteps(c, events);
    if events != [] {
      var n := |events| - 1;
      var prev := After(c, events[..n]);
      assert forall i :: 0 <= i < n ==> events[..n][..i] == events[..i] && events[..n][i] == events[i];
      SavedUntilRestored(c, events[..n]);
      if events[n].Visit? { StackNeverPanics(prev, events[n].cpu); }
      ApplySound(prev, events[n]);
      ApplyKeepsSaved(prev, events[n]);
      NoneWhileSaved(prev, events[n]);
    }
  }

  lemma AfterSteps(c: Context, events: seq<Event>)
    requires c.Sound() && c.kstack.Some?
    ensures if events == [] then After(c, events) == c && Delivered(c, events) == []
            else
              var n := |events| - 1;
              var prev := After(c, events[..n]);
              && (events[n].Visit? ==> !Panics(prev, events[n].cpu))
              && After(c, events) == Apply(prev, events[n])
              && Delivered(c, events) == Delivered(c, events[..n]) + SignalDelivered(prev, events[n])
  {
    hide Apply;
    if events != [] {
      var n := |events| - 1;
      if events[n].Visit? { StackNeverPanics(After(c, events[..n]), events[n].cpu); }
    }
  }

  lemma NoneWhileSaved(c: Context, e: Event)
    requires c.ksig.Some?
    ensures SignalDelivered(c, e) == []
  {
  }

  lemma RestoreExact(c: Context, e: Event)
    requires c.Sound() && c.kstack.Some? && Restores(c, e)
    ensures !Panics(c, e.cpu) && c.Restorable()
    ensures var r, saved := Apply(c, e), c.ksig.value;
            && r.arch == saved.arch && r.kfx == saved.kfx && r.ksig.None? && !r.ksigRestore
            && r.kstack == Some(saved.kstack.value.(singlestep :=
                 if c.regs && saved.sig in c.handled then c.kstack.value.singlestep else saved.kstack.value.singlestep))
            && (c.status == Blocked || c.status == Runnable ==> r.status == Runnable)
  {
  }

  // From delivery, through whatever the handler and the rest of the system do, to the restore:
  // registers, FX area and kernel stack come back as they were, but for the single-step flag, which
  // stays as a user handler left it.
  lemma SignalRoundTrip(c: Context, signalStack: nat, now: nat, events: seq<Event>, restore: Event)
    requires c.Sound() && c.kstack.Some? && c.ksig.None? && c.pending != []
    requires var d := SwitchedIn(c, signalStack, now);
             d.Sound() ==>
               && (forall i :: 0 <= i < |events| ==> !Restores(After(d, events[..i]), events[i]))
               && Restores(After(d, events), restore)
    ensures var d := SwitchedIn(c, signalStack, now);
            && d.Sound() && d.ksig.Some? && d.ksig.value.sig == c.pending[0] && d.pending == c.pending[1..]
            && Delivered(d, events) == []
            && var e := After(d, events);
               var r := Apply(e, restore);
               && r.arch == c.arch && r.kfx == c.kfx && r.kstack.Some? && r.kstack.value.bytes == c.kstack.value.bytes
               && e.kstack.Some?
               && r.kstack.value.singlestep == (if e.regs && c.pending[0] in e.handled then e.kstack.value.singlestep
                                                else c.kstack.value.singlestep)
               && r.ksig.None? && !r.ksigRestore
               && (e.status == Blocked || e.status == Runnable ==> r.status == Runnable)
  {
    hide After, Delivered, Restores, UpdateRunnable, Context.Singlestep;
    var d := SwitchedIn(c, signalStack, now);
    ApplySound(c, SwitchIn(signalStack, now));
    SavedUntilRestored(d, events);
    RestoreExact(After(d, events), restore);
  }

  // What single events do to the signal state, field by field.

  // Returning from a handler asks for the restore and blocks; without saved state it does nothing.
  lemma ReturnExact(c: Context)
    ensures Apply(c, Return) ==
            if c.ksig.None? then c
            else c.(ksigRestore := true, status := if c.status == Runnable then Blocked else c.status)
  {
  }

  // Switching to a context delivers its first pending signal, unless one is being handled: the state is put
  // aside and the context continues on the signal stack.
  lemma DeliveryExact(c: Context, signalStack: nat, now: nat)
    ensures Apply(c, SwitchIn(signalStack, now)) ==
            if c.ksig.Some? || c.pending == [] then c.(running := true, switchTime := now)
            else c.(running := true, switchTime := now, arch := signalStack, pending := c.pending[1..],
                    ksig := Some(Saved(c.arch, c.kfx, c.kstack, c.pending[0])))
  {
  }

  // A deadline that has passed wakes a blocked context, once: blocked again without a new one, no later look
  // finds it eligible until a signal comes.
  lemma DeadlineWakesOnce(c: Context, cpu: nat, now: nat, later: nat)
    requires Mine(c, cpu) && c.status == Blocked && !c.ksigRestore && c.pending == []
    requires c.wake.Some? && c.wake.value <= now
    ensures !Panics(c, cpu)
    ensures var r := Apply(c, Visit(cpu, now));
            r.status == Runnable && r.wake.None? && !Eligible(r.(status := Blocked), cpu, later)
  {
  }

  // A CPU looks at an idle, untraced context that it has claimed, or that is unclaimed and not bound to
  // another CPU, and claims it; every other one it leaves as it is.
  lemma VisitOnlyOwn(c: Context, cpu: nat, now: nat)
    ensures var own := !c.running && !c.ptraceStop &&
                       (if c.cpuId.Some? then c.cpuId.value == cpu else c.affinity.Some? ==> c.affinity.value == cpu);
            && (!own ==> !Panics(c, cpu) && Apply(c, Visit(cpu, now)) == c && !Eligible(c, cpu, now))
            && (own && !Panics(c, cpu) ==> Apply(c, Visit(cpu, now)).cpuId == Some(cpu))
            && (own && c.status == Runnable ==> Eligible(c, cpu, now))
            && (own && c.status == Blocked && (c.pending != [] || c.ksigRestore) ==> Eligible(c, cpu, now))
            && (Eligible(c, cpu, now) && c.status == Blocked && c.pending == [] && !c.ksigRestore ==>
                  c.wake.Some? && c.wake.value <= now)
            && (Eligible(c, cpu, now) ==> c.status == Runnable || c.status == Blocked)
  {
  }

  // A context that goes to sleep can run again, without a signal, iff its deadline has passed or it is notified.
  lemma SleepsUntil(c: Context, until: Option<nat>, cpu: nat, now: nat)
    requires c.status == Runnable && c.pending == [] && !c.ksigRestore && Mine(c, cpu)
    ensures var r := Apply(c, Sleep(until));
            && r.status == Blocked && (Eligible(r, cpu, now) <==> until.Some? && until.value <= now)
            && Eligible(Apply(r, Notify), cpu, now)
  {
  }

  // A stopped context, and one under trace, cannot run whatever the time; and a notify does not change that.
  lemma StoppedCannotRun(c: Context, sig: nat, cpu: nat, now: nat)
    ensures !Eligible(Apply(c, Stop(sig)), cpu, now) && !Eligible(Apply(Apply(c, Stop(sig)), Notify), cpu, now)
    ensures !Eligible(Apply(c, Trace(true)), cpu, now)
    ensures Apply(Apply(c, Trace(true)), Trace(c.ptraceStop)) == c
  {
  }

  // A deadline that has not passed stays.
  lemma DeadlineKept(c: Context, cpu: nat, now: nat)
    requires !Panics(c, cpu) && (c.wake.Some? ==> now < c.wake.value)
    ensures Apply(c, Visit(cpu, now)).wake == c.wake
  {
  }

  // A stopped context can run again iff it is sent SIGCONT; every signal is queued behind those before it.
  lemma OnlyContinueWakes(c: Context, sig: nat, cpu: nat, now: nat)
    requires c.status.Stopped? && Mine(c, cpu) && sig != 0
    ensures var r := Apply(c, Send(sig));
            && r.pending == c.pending + [sig]
            && (Eligible(r, cpu, now) <==> sig == SIGCONT)
            && (sig != SIGCONT ==> r.status == c.status)
  {
  }

  // Sending signal 0 does nothing, and no signal changes the status of a context that is not stopped.
  lemma SendKeepsStatus(c: Context, sig: nat)
    ensures var r := Apply(c, Send(sig));
            && (sig == 0 ==> r == c)
            && (!c.status.Stopped? ==> r.status == c.status)
            && r == c.(pending := r.pending, status := r.status)
  {
  }

  // From delivery, through whatever happens while the handler runs, to its return: once the context has
  // been switched out, the next look by its CPU puts everything back and makes it runnable. Nothing is
  // assumed of the restore.
  lemma HandlerReturns(
    c: Context, signalStack: nat, now: nat, events: seq<Event>, out: nat, cpu: nat, visit: nat
  )
    requires c.Sound() && c.kstack.Some? && c.ksig.None? && c.pending != []
    requires var d := SwitchedIn(c, signalStack, now);
             d.Sound() ==>
               && (forall i :: 0 <= i < |events| ==> !Restores(After(d, events[..i]), events[i]))
               && var e := After(d, events);
                  && (e.cpuId == Some(cpu) || (e.cpuId.None? && (e.affinity.None? || e.affinity == Some(cpu))))
                  && !e.ptraceStop
    ensures var d := SwitchedIn(c, signalStack, now);
            && d.Sound() && d.kstack.Some? && d.arch == signalStack
            && var e, r := After(d, events), After(d, events + [Return, SwitchOut(out), Visit(cpu, visit)]);
               && r.arch == c.arch && r.kfx == c.kfx && r.kstack.Some? && r.kstack.value.bytes == c.kstack.value.bytes
               && r.ksig.None? && !r.ksigRestore && !r.running && r.cpuId == Some(cpu)
               && (e.status == Runnable || e.status == Blocked ==> r.status == Runnable && Eligible(r, cpu, visit))
  {
    hide After, Delivered, Restores, UpdateRunnable, Context.Sound, Context.Restorable, Panics, Context.Singlestep;
    var d := SwitchedIn(c, signalStack, now);
    ApplySound(c, SwitchIn(signalStack, now));
    SavedUntilRestored(d, events);
    ReturnIsRestored(After(d, events), out, cpu, visit);
    ThreeMore(d, events, Return, SwitchOut(out), Visit(cpu, visit));
  }

  lemma ThreeMore(c: Context, events: seq<Event>, a: Event, b: Event, d: Event)
    requires c.Sound() && c.kstack.Some?
    requires !a.Visit? && !b.Visit?
    ensures var e := After(c, events);
            var e2 := Apply(Apply(e, a), b);
            && (d.Visit? ==> !Panics(e2, d.cpu))
            && After(c, events + [a, b, d]) == Apply(e2, d)
  {
    hide Apply, Context.Sound, Panics, Delivered;
    var all := events + [a, b, d];
    assert all[..|all| - 1] == events + [a, b];
    assert (events + [a, b])[..|events| + 1] == events + [a];
    assert (events + [a])[..|events|] == events;
    AfterSteps(c, all);
    AfterSteps(c, events + [a, b]);
    AfterSteps(c, events + [a]);
  }

  // The context that returns is restored by the next look.
  lemma ReturnIsRestored(e: Context, out: nat, cpu: nat, visit: nat)
    requires e.Sound() && e.kstack.Some? && e.ksig.Some? && !e.ptraceStop
    requires e.cpuId == Some(cpu) || (e.cpuId.None? && (e.affinity.None? || e.affinity == Some(cpu)))
    ensures var e2 := Apply(Apply(e, Return), SwitchOut(out));
            && !Panics(e2, cpu)
            && var r, saved := Apply(e2, Visit(cpu, visit)), e.ksig.value;
               && r.arch == saved.arch && r.kfx == saved.kfx && r.kstack.Some? && saved.kstack.Some?
               && r.kstack.value.bytes == saved.kstack.value.bytes
               && r.ksig.None? && !r.ksigRestore && !r.running && r.cpuId == Some(cpu)
               && (e.status == Runnable || e.status == Blocked ==> r.status == Runnable && Eligible(r, cpu, visit))
  {
    var e2 := Apply(Apply(e, Return), SwitchOut(out));
    assert Restores(e2, Visit(cpu, visit));
    RestoreExact(e2, Visit(cpu, visit));
  }

  // Signals are delivered first in, first out, each once.
  lemma {:induction false} SignalsInOrder(c: Context, events: seq<Event>)
    requires c.Sound() && c.kstack.Some?
    ensures c.pending + Sent(events) == Delivered(c, events) + After(c, events).pending
    decreases |events|
  {
    hide Apply, Context.Sound, Panics, Mine, SignalSent, SignalDelivered;
    if events != [] {
      var n := |events| - 1;
      SignalsInOrder(c, events[..n]);
      var prev := After(c, events[..n]);
      if events[n].Visit? { StackNeverPanics(prev, events[n].cpu); }
      ApplySound(prev, events[n]);
      ApplyPending(prev, events[n]);
      var sent, delivered := SignalSent(events[n]), SignalDelivered(prev, events[n]);
      calc {
        c.pending + Sent(events);
        (c.pending + Sent(events[..n])) + sent;
        (Delivered(c, events[..n]) + prev.pending) + sent;
        Delivered(c, events[..n]) + (prev.pending + sent);
        (Delivered(c, events[..n]) + delivered) + After(c, events).pending;
      }
    }
  }
}
