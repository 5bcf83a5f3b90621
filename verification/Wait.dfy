// Waiting for a condition: the list of waiters, and the protocol of wait queues and wait maps.
module Conditions {
  import opened Regions

  // What searching the list for a waiter leaves: the list without its first entry for it.
  function Without(waiters: seq<nat>, id: nat): (r: seq<nat>)
    ensures id !in waiters ==> r == waiters
  {
    if waiters == [] then []
    else if waiters[0] == id then waiters[1..]
    else [waiters[0]] + Without(waiters[1..], id)
  }

  lemma {:induction false} WithoutCounts(waiters: seq<nat>, id: nat)
    ensures multiset(Without(waiters, id)) == multiset(waiters) - multiset{id}
  {
    if waiters != [] {
      assert waiters == [waiters[0]] + waiters[1..];
      if waiters[0] != id {
        WithoutCounts(waiters[1..], id);
      }
    }
  }

  lemma {:induction false} WithoutAt(waiters: seq<nat>, id: nat, i: nat)
    requires i < |waiters| && waiters[i] == id && id !in waiters[..i]
    ensures Without(waiters, id) == waiters[..i] + waiters[i + 1..]
  {
    if i > 0 {
      var rest := waiters[1..];
      assert waiters[0] in waiters[..i];
      assert rest[..i - 1] <= waiters[1..i];
      WithoutAt(rest, id, i - 1);
      WithoutFirst(waiters, id);
      assert waiters[..i] == [waiters[0]] + rest[..i - 1];
      assert waiters[i + 1..] == rest[i..];
    }
  }

  lemma WithoutFirst(waiters: seq<nat>, id: nat)
    requires waiters != [] && waiters[0] != id
    ensures Without(waiters, id) == [waiters[0]] + Without(waiters[1..], id)
  {
  }

  // How often a waiter is listed.
  function Times(waiters: seq<nat>, id: nat): nat {
    multiset(waiters)[id]
  }

  lemma TimesChange(waiters: seq<nat>, id: nat, x: nat)
    ensures x in waiters <==> Times(waiters, x) > 0
    ensures Times(waiters + [id], x) == Times(waiters, x) + if x == id then 1 else 0
    ensures Times(Without(waiters, id), x) == if x == id && x in waiters
              then Times(waiters, x) - 1 else Times(waiters, x)
    ensures waiters != [] ==>
              Times(waiters[..|waiters| - 1], x) == Times(waiters, x) - if x == waiters[|waiters| - 1] then 1 else 0
  {
    hide Without, Times;
    TimesPush(waiters, id, x);
    TimesWithout(waiters, id, x);
    if waiters != [] {
      var n := |waiters| - 1;
      assert waiters == waiters[..n] + [waiters[n]];
      TimesPush(waiters[..n], waiters[n], x);
    }
  }

  lemma TimesPush(waiters: seq<nat>, id: nat, x: nat)
    ensures x in waiters <==> Times(waiters, x) > 0
    ensures Times(waiters + [id], x) == Times(waiters, x) + if x == id then 1 else 0
  {
  }

  lemma TimesWithout(waiters: seq<nat>, id: nat, x: nat)
    ensures Times(Without(waiters, id), x) == if x == id && x in waiters
              then Times(waiters, x) - 1 else Times(waiters, x)
  {
    hide Without;
    WithoutCounts(waiters, id);
  }

  // The waiters of one condition, and which contexts are blocked.
  class WaitCondition {
    var waiters: seq<nat>
    var blocked: set<nat>

    constructor (blocked: set<nat>)
      ensures waiters == [] && this.blocked == blocked
    {
      waiters, this.blocked := [], blocked;
    }

    // Removes and unblocks every waiter, the latest first.
    method Notify() returns (n: nat)
      modifies this
      ensures waiters == [] && n == |old(waiters)|
      ensures blocked == old(blocked) - (set id | id in old(waiters))
    {
      n := |waiters|;
      while waiters != []
        invariant waiters <= old(waiters)
        invariant blocked == old(blocked) - (set id | id in old(waiters)[|waiters|..])
        decreases |waiters|
      {
        var last := |waiters| - 1;
        assert old(waiters)[last..] == [waiters[last]] + old(waiters)[|waiters|..];
        blocked := blocked - {waiters[last]};
        waiters := waiters[..last];
      }
    }

    // Unblocks every waiter but leaves all of them in the list.
    method NotifySignal() returns (n: nat)
      modifies this
      ensures waiters == old(waiters) && n == |waiters|
      ensures blocked == old(blocked) - (set id | id in waiters)
    {
      n := |waiters|;
      for i := 0 to |waiters|
        invariant waiters == old(waiters)
        invariant blocked == old(blocked) - (set id | id in waiters[..i])
      {
        assert waiters[..i + 1] == waiters[..i] + [waiters[i]];
        blocked := blocked - {waiters[i]};
      }
    }

    // The first half of `wait`, before the data lock is dropped.
    method Register(id: nat)
      modifies this
      ensures waiters == old(waiters) + [id] && blocked == old(blocked) + {id}
    {
      blocked := blocked + {id};
      waiters := waiters + [id];
    }

    // The second half of `wait`, after the switch: withdraws the waiter if it is still listed.
    method Withdraw(id: nat) returns (waited: bool)
      modifies this
      ensures waited <==> id !in old(waiters)
      ensures waiters == Without(old(waiters), id) && blocked == old(blocked)
    {
      waited := true;
      var i := 0;
      while i < |waiters|
        invariant 0 <= i <= |waiters| && waited
        invariant waiters == old(waiters) && blocked == old(blocked)
        invariant id !in waiters[..i]
      {
        if waiters[i] == id {
          WithoutAt(waiters, id, i);
          waiters := waiters[..i] + waiters[i + 1..];
          waited := false;
          break;
        } else {
          assert waiters[..i + 1] == waiters[..i] + [waiters[i]];
          i := i + 1;
        }
      }
    }
  }
}

// Receivers and senders on a `WaitQueue` or a `WaitMap`, interleaved between their atomic actions.
module WaitProtocol {
  import opened Regions
  import opened Conditions

  datatype Store = Queue(items: seq<int>) | Table(entries: map<nat, int>)
  {
    // A receiver for `key` would find a value.
    predicate Has(key: nat) {
      if Queue? then items != [] else key in entries
    }

    function Put(key: nat, value: int): Store {
      if Queue? then Queue(items + [value]) else Table(entries[key := value])
    }

    function Value(key: nat): int
      requires Has(key)
    {
      if Queue? then items[0] else entries[key]
    }

    function Rest(key: nat): Store
      requires Has(key)
    {
      if Queue? then Queue(items[1..]) else Table(entries - {key})
    }
  }

  // Where a thread is.
  datatype Pc =
    | Idle
    | Receiving(key: nat)
    | FoundEmpty(key: nat)
    | Blocking(key: nat)
    | Registered(key: nat)
    | Waiting(key: nat)
    | Interrupted
    | Sending(key: nat, value: int)
    | Stored
    | Notifying(hand: Option<nat>)

  // `notified`, `sent` and `received` record history: the waiters a notify took off the list since they
  // last registered, the values stored and the values received, in order.
  datatype State = State(
    pcs: map<nat, Pc>,
    store: Store,
    dataLock: Option<nat>,
    condLock: Option<nat>,
    waiters: seq<nat>,
    blocked: set<nat>,
    notified: set<nat>,
    sent: seq<int>,
    received: seq<int>)
  {
    function Pc(t: nat): Pc {
      if t in pcs then pcs[t] else Idle
    }

    function To(t: nat, pc: Pc): State {
      this.(pcs := pcs[t := pc])
    }

    // `t` holds the data lock, having found nothing for it.
    predicate HoldsData(t: nat) {
      Pc(t).FoundEmpty? || Pc(t).Blocking? || Pc(t).Registered?
    }

    // `t` has stored its value but not finished notifying.
    predicate Owes(t: nat) {
      Pc(t).Stored? || Pc(t).Notifying?
    }

    // `t` has registered and not yet withdrawn.
    predicate Waits(t: nat) {
      Pc(t).Registered? || Pc(t).Waiting?
    }
  }

  datatype Action =
    | Receive(key: nat)
    | Look
    | Block
    | Register
    | Release
    | Resume
    | Send(key: nat, value: int)
    | Put
    | Lock
    | Pop
    | Unblock
    | Finish
    | Wake

  // Resuming is always possible: by a notify, a signal, a timeout, or because nothing else could run.
  predicate Enabled(s: State, t: nat, a: Action) {
    var pc := s.Pc(t);
    match a
    case Receive(_) => pc.Idle? || pc.Interrupted?
    case Look => pc.Receiving? && s.dataLock.None?
    case Block => pc.FoundEmpty?
    case Register => pc.Blocking? && s.condLock.None?
    case Release => pc.Registered?
    case Resume => pc.Waiting? && s.condLock.None?
    case Send(_, _) => pc.Idle? || pc.Interrupted?
    case Put => pc.Sending? && s.dataLock.None?
    case Lock => pc.Stored? && s.condLock.None?
    case Pop => pc == Notifying(None) && s.waiters != []
    case Unblock => pc.Notifying? && pc.hand.Some?
    case Finish => pc == Notifying(None) && s.waiters == []
    case Wake => true
  }

  function Next(s: State, t: nat, a: Action): State
    requires Enabled(s, t, a)
  {
    var pc := s.Pc(t);
    match a
    case Receive(key) => s.To(t, Receiving(key))
    case Look =>
      if s.store.Has(pc.key) then
        s.To(t, Idle).(store := s.store.Rest(pc.key), received := s.received + [s.store.Value(pc.key)])
      else
        s.To(t, FoundEmpty(pc.key)).(dataLock := Some(t))
    case Block => s.To(t, Blocking(pc.key)).(blocked := s.blocked + {t})
    case Register => s.To(t, Registered(pc.key)).(waiters := s.waiters + [t], notified := s.notified - {t})
    case Release => s.To(t, Waiting(pc.key)).(dataLock := None)
    case Resume =>
      var waited := t !in s.waiters;
      s.To(t, if waited || s.store.Table? then Receiving(pc.key) else Interrupted).(waiters := Without(s.waiters, t))
    case Send(key, value) => s.To(t, Sending(key, value))
    case Put => s.To(t, Stored).(store := s.store.Put(pc.key, pc.value), sent := s.sent + [pc.value])
    case Lock => s.To(t, Notifying(None)).(condLock := Some(t))
    case Pop =>
      var last := |s.waiters| - 1;
      s.To(t, Notifying(Some(s.waiters[last]))).(waiters := s.waiters[..last], notified := s.notified +
        {s.waiters[last]})
    case Unblock => s.To(t, Notifying(None)).(blocked := s.blocked - {pc.hand.value})
    case Finish => s.To(t, Idle).(condLock := None)
    case Wake => s.(blocked := s.blocked - {t})
  }

  /// The invariant

  ghost predicate Locks(s: State) {
    && (forall t: nat :: s.dataLock == Some(t) <==> s.HoldsData(t))
    && (forall t: nat :: s.condLock == Some(t) <==> s.Pc(t).Notifying?)
    && (forall t: nat :: s.HoldsData(t) ==> !s.store.Has(s.Pc(t).key))
  }

  ghost predicate ListedAt(s: State, x: nat) {
    Times(s.waiters, x) == if s.Waits(x) && x !in s.notified then 1 else 0
  }

  // The list holds exactly those who wait and were not notified, once each.
  ghost predicate Listed(s: State) {
    forall t: nat :: ListedAt(s, t)
  }

  // A listed waiter with something to receive will be notified.
  ghost predicate Promised(s: State) {
    forall t: nat :: s.Pc(t).Waiting? && t !in s.notified && s.store.Has(s.Pc(t).key) ==> exists u :: s.Owes(u)
  }

  // A notified waiter that is still blocked is in some notifier's hand.
  ghost predicate InHand(s: State) {
    forall t: nat :: s.Waits(t) && t in s.notified && t in s.blocked ==> exists u :: s.Pc(u) == Notifying(Some(t))
  }

  ghost predicate InOrder(s: State) {
    s.store.Queue? ==> s.sent == s.received + s.store.items
  }

  ghost predicate Inv(s: State) {
    Locks(s) && Listed(s) && Promised(s) && InHand(s) && InOrder(s)
  }

  lemma NextLocks(s: State, t: nat, a: Action)
    requires Locks(s) && Enabled(s, t, a)
    ensures Locks(Next(s, t, a))
  {
    hide Without;
    var r := Next(s, t, a);
    forall x: nat
      ensures r.HoldsData(x) ==> !r.store.Has(r.Pc(x).key)
    {
      if r.HoldsData(x) {
        NextHolds(s, t, a, x);
      }
    }
    NextOwners(s, t, a);
  }

  lemma NextHolds(s: State, t: nat, a: Action, x: nat)
    requires Locks(s) && Enabled(s, t, a) && Next(s, t, a).HoldsData(x)
    ensures !Next(s, t, a).store.Has(Next(s, t, a).Pc(x).key)
  {
    hide Without;
    assert s.dataLock == Some(x) <==> s.HoldsData(x);
  }

  lemma NextOwners(s: State, t: nat, a: Action)
    requires Locks(s) && Enabled(s, t, a)
    ensures var r := Next(s, t, a);
            && (forall x: nat :: r.dataLock == Some(x) <==> r.HoldsData(x))
            && (forall x: nat :: r.condLock == Some(x) <==> r.Pc(x).Notifying?)
  {
    hide Without, Store.Rest, Store.Put, Store.Value;
  }

  lemma PopListedAt(s: State, t: nat, x: nat)
    requires Enabled(s, t, Pop) && ListedAt(s, x) && ListedAt(s, s.waiters[|s.waiters| - 1])
    ensures ListedAt(Next(s, t, Pop), x)
  {
    hide Times, Without;
    var last := s.waiters[|s.waiters| - 1];
    assert last in s.waiters;
    assert Next(s, t, Pop).Waits(x) == s.Waits(x);
    TimesChange(s.waiters, t, x);
    TimesChange(s.waiters, t, last);
  }

  // Registering and withdrawing change the list by the thread itself.
  lemma OwnListedAt(s: State, t: nat, a: Action, x: nat)
    requires Enabled(s, t, a) && (a.Register? || a.Resume?) && ListedAt(s, x)
    ensures ListedAt(Next(s, t, a), x)
  {
    hide Times, Without, Store.Has, Store.Rest, Store.Put, Store.Value;
    TimesChange(s.waiters, t, x);
  }

  lemma OtherListedAt(s: State, t: nat, a: Action, x: nat)
    requires Enabled(s, t, a) && !a.Pop? && !a.Register? && !a.Resume? && ListedAt(s, x)
    ensures ListedAt(Next(s, t, a), x)
  {
    hide Times, Without, Store.Has, Store.Rest, Store.Put, Store.Value;
  }

  lemma NextListed(s: State, t: nat, a: Action)
    requires Listed(s) && Enabled(s, t, a)
    ensures Listed(Next(s, t, a))
  {
    hide Times, Next, ListedAt;
    forall x: nat
      ensures ListedAt(Next(s, t, a), x)
    {
      assert ListedAt(s, x);
      if a.Pop? {
        assert ListedAt(s, s.waiters[|s.waiters| - 1]);
        PopListedAt(s, t, x);
      } else if a.Register? || a.Resume? {
        OwnListedAt(s, t, a, x);
      } else {
        OtherListedAt(s, t, a, x);
      }
    }
  }

  lemma NextOwes(s: State, t: nat, a: Action, u: nat)
    requires Enabled(s, t, a) && s.Owes(u) && !a.Finish?
    ensures Next(s, t, a).Owes(u)
  {
  }

  // Only storing a value gives a listed waiter something to receive.
  lemma NextFinds(s: State, t: nat, a: Action, x: nat)
    requires Locks(s) && Enabled(s, t, a) && !a.Put?
    requires var r := Next(s, t, a); r.Pc(x).Waiting? && x !in r.notified && r.store.Has(r.Pc(x).key)
    ensures s.Pc(x).Waiting? && x !in s.notified && s.store.Has(s.Pc(x).key)
  {
  }

  lemma NextPromised(s: State, t: nat, a: Action)
    requires Locks(s) && Listed(s) && Promised(s) && Enabled(s, t, a)
    ensures Promised(Next(s, t, a))
  {
    var r := Next(s, t, a);
    if a.Put? {
      assert r.Owes(t);
    } else {
      forall x: nat | r.Pc(x).Waiting? && x !in r.notified && r.store.Has(r.Pc(x).key)
        ensures exists u :: r.Owes(u)
      {
        hide Next, Times;
        NextFinds(s, t, a, x);
        TimesChange(s.waiters, t, x);
        assert ListedAt(s, x);
        var u :| s.Owes(u);
        NextOwes(s, t, a, u);
      }
    }
  }

  lemma NextInHand(s: State, t: nat, a: Action)
    requires Locks(s) && InHand(s) && Enabled(s, t, a)
    ensures InHand(Next(s, t, a))
  {
    var r := Next(s, t, a);
    forall x: nat | r.Waits(x) && x in r.notified && x in r.blocked
      ensures exists u :: r.Pc(u) == Notifying(Some(x))
    {
      if a.Pop? && x !in s.notified {
        assert r.Pc(t) == Notifying(Some(x));
      } else {
        var u :| s.Pc(u) == Notifying(Some(x));
        assert r.Pc(u) == Notifying(Some(x));
      }
    }
  }

  lemma NextInv(s: State, t: nat, a: Action)
    requires Inv(s) && Enabled(s, t, a)
    ensures Inv(Next(s, t, a))
  {
    NextLocks(s, t, a);
    NextListed(s, t, a);
    NextPromised(s, t, a);
    NextInHand(s, t, a);
    hide Locks, Listed, Promised, InHand;
  }

  function Start(store: Store): State {
    State(map[], store, None, None, [], {}, {}, if store.Queue? then store.items else [], [])
  }

  // Every run of any threads; an action that is not enabled waits, that is, changes nothing.
  ghost function StateAfter(store: Store, run: seq<(nat, Action)>): (s: State)
    ensures Inv(s)
  {
    if run == [] then Start(store) else
      var prev := StateAfter(store, run[..|run| - 1]);
      var (t, a) := run[|run| - 1];
      if Enabled(prev, t, a) then NextInv(prev, t, a); Next(prev, t, a) else prev
  }

  // No lost wakeup: while a receiver is blocked although there is something for it, a sender has
  // stored its value and not finished notifying.
  lemma NoLostWakeup(store: Store, run: seq<(nat, Action)>, t: nat)
    requires var s := StateAfter(store, run);
             s.Pc(t).Waiting? && t in s.blocked && s.store.Has(s.Pc(t).key)
    ensures exists u :: StateAfter(store, run).Owes(u)
  {
    var s := StateAfter(store, run);
    if t in s.notified {
      var u :| s.Pc(u) == Notifying(Some(t));
      assert s.Owes(u);
    }
  }

  // `wait` returns true exactly when a notify took the waiter off the list.
  lemma WaitedIffNotified(store: Store, run: seq<(nat, Action)>, t: nat)
    requires StateAfter(store, run).Pc(t).Waiting?
    ensures var s := StateAfter(store, run);
            && (t !in s.waiters <==> t in s.notified)
            && t !in Without(s.waiters, t)
  {
    var s := StateAfter(store, run);
    TimesChange(s.waiters, t, t);
    assert ListedAt(s, t);
    assert t in Without(s.waiters, t) <==> Times(Without(s.waiters, t), t) > 0;
  }

  lemma NextKind(s: State, t: nat, a: Action)
    requires Enabled(s, t, a)
    ensures Next(s, t, a).store.Queue? == s.store.Queue?
  {
  }

  // A queue delivers every value once, in the order they were stored.
  lemma {:induction false} QueueInOrder(items: seq<int>, run: seq<(nat, Action)>)
    ensures var s := StateAfter(Queue(items), run);
            s.store.Queue? && s.sent == s.received + s.store.items
    decreases |run|
  {
    hide Next, Enabled;
    if run != [] {
      var n := |run| - 1;
      QueueInOrder(items, run[..n]);
      var prev := StateAfter(Queue(items), run[..n]);
      if Enabled(prev, run[n].0, run[n].1) {
        NextKind(prev, run[n].0, run[n].1);
      }
    }
  }

  /// What single actions do, in reachable states

  // After `wait`, a receiver on a queue goes round again iff a notify took it off the list, and otherwise
  // returns empty-handed; on a map it always goes round again. In any case it is off the list.
  lemma ResumeGoes(store: Store, run: seq<(nat, Action)>, t: nat)
    requires Enabled(StateAfter(store, run), t, Resume)
    ensures var s := StateAfter(store, run);
            var r := Next(s, t, Resume);
            && s.Pc(t).Waiting? && t !in r.waiters && r.store == s.store
            && r.Pc(t) == (if s.store.Table? || t in s.notified then Receiving(s.Pc(t).key) else Interrupted)
  {
    hide StateAfter, Without;
    WaitedIffNotified(store, run, t);
  }

  // A look takes the first value of a queue, or the value under the key of a map, which is then gone; or it
  // finds nothing, and keeps the data lock.
  lemma LookExact(s: State, t: nat)
    requires Enabled(s, t, Look)
    ensures var r, key := Next(s, t, Look), s.Pc(t).key;
            match s.store
            case Queue(items) =>
              if items == [] then r.Pc(t) == FoundEmpty(key) && r.dataLock == Some(t) && r.store == s.store
              else
                && r.Pc(t) == Idle && r.received == s.received + [items[0]]
                && r.store.Queue? && items == [items[0]] + r.store.items && r.dataLock.None?
            case Table(entries) =>
              if key !in entries then r.Pc(t) == FoundEmpty(key) && r.dataLock == Some(t) && r.store == s.store
              else
                && r.Pc(t) == Idle && r.received == s.received + [entries[key]]
                && r.store == Table(entries - {key}) && r.dataLock.None?
  {
  }

  // A sender stores its value, at the end of a queue or under its key in a map, and then owes a notify.
  lemma PutExact(s: State, t: nat)
    requires Enabled(s, t, Action.Put)
    ensures var r, pc := Next(s, t, Action.Put), s.Pc(t);
            && r.Pc(t) == Stored && r.Owes(t) && r.sent == s.sent + [pc.value]
            && match s.store
               case Queue(items) => r.store == Queue(items + [pc.value])
               case Table(entries) => r.store == Table(entries[pc.key := pc.value])
  {
  }

  // A receiver is blocked before it is listed, and stays blocked until a notifier that has it in hand, or
  // something else meant for it, wakes it.
  lemma BlockedUntilWoken(s: State, u: nat, a: Action, t: nat)
    requires Enabled(s, u, a)
    ensures a.Block? ==> u in Next(s, u, a).blocked
    ensures t in s.blocked && t !in Next(s, u, a).blocked ==>
              (a.Wake? && u == t) || (a.Unblock? && s.Pc(u) == Notifying(Some(t)))
    ensures a.Unblock? && s.Pc(u) == Notifying(Some(t)) ==> t !in Next(s, u, a).blocked
    ensures a.Register? ==> u in Next(s, u, a).waiters
  {
  }

  // When a notify is finished, no receiver that was waiting is blocked any more.
  lemma FinishLeavesNoneBlocked(store: Store, run: seq<(nat, Action)>, u: nat, t: nat)
    requires var s := StateAfter(store, run); Enabled(s, u, Finish) && s.Waits(t)
    ensures t !in StateAfter(store, run).blocked
  {
    hide StateAfter, Times;
    var s := StateAfter(store, run);
    TimesChange(s.waiters, t, t);
    assert ListedAt(s, t);
    assert s.condLock == Some(u) && !exists v :: s.Pc(v) == Notifying(Some(t));
  }

  // What other threads do leaves a thread where it is.
  lemma OthersKeepPc(s: State, u: nat, a: Action, t: nat)
    requires Enabled(s, u, a) && u != t
    ensures Next(s, u, a).Pc(t) == s.Pc(t)
  {
  }

  lemma {:induction false} RunKeepsPc(store: Store, run: seq<(nat, Action)>, mid: seq<(nat, Action)>, t: nat)
    requires forall i :: 0 <= i < |mid| ==> mid[i].0 != t
    ensures StateAfter(store, run + mid).Pc(t) == StateAfter(store, run).Pc(t)
    decreases |mid|
  {
    hide Next, Enabled, Inv;
    if mid == [] {
      assert run + mid == run;
    } else {
      var n := |mid| - 1;
      RunKeepsPc(store, run, mid[..n], t);
      assert (run + mid)[..|run + mid| - 1] == run + mid[..n] && (run + mid)[|run + mid| - 1] == mid[n];
      var s := StateAfter(store, run + mid[..n]);
      if Enabled(s, mid[n].0, mid[n].1) {
        OthersKeepPc(s, mid[n].0, mid[n].1, t);
      }
    }
  }

  lemma StateAfterOne(store: Store, run: seq<(nat, Action)>, t: nat, a: Action)
    requires Enabled(StateAfter(store, run), t, a)
    ensures StateAfter(store, run + [(t, a)]) == Next(StateAfter(store, run), t, a)
  {
    hide Next, Enabled, Inv;
    assert (run + [(t, a)])[..|run + [(t, a)]| - 1] == run;
  }

  // A receiver that was notified and next looks at a queue with something in it gets the first value,
  // whatever other threads did in between.
  lemma NotifiedReceives(items: seq<int>, run: seq<(nat, Action)>, t: nat, mid: seq<(nat, Action)>)
    requires var s := StateAfter(Queue(items), run); Enabled(s, t, Resume) && t in s.notified
    requires forall i :: 0 <= i < |mid| ==> mid[i].0 != t
    requires var s := StateAfter(Queue(items), run + [(t, Resume)] + mid);
             s.dataLock.None? && s.store.Queue? && s.store.items != []
    ensures var s := StateAfter(Queue(items), run + [(t, Resume)] + mid);
            var r := StateAfter(Queue(items), run + [(t, Resume)] + mid + [(t, Look)]);
            && s.store.Queue? && s.store.items != []
            && r.Pc(t) == Idle && r.received == s.received + [s.store.items[0]]
  {
    hide StateAfter, Next, Inv;
    var resumed := run + [(t, Resume)];
    StateAfterOne(Queue(items), run, t, Resume);
    ResumeGoes(Queue(items), run, t);
    RunKeepsPc(Queue(items), resumed, mid, t);
    StateAfterOne(Queue(items), resumed + mid, t, Look);
    LookExact(StateAfter(Queue(items), resumed + mid), t);
  }

  // A call starts with the key and the value it was given.
  lemma CallExact(s: State, t: nat, key: nat, value: int)
    requires s.Pc(t).Idle? || s.Pc(t).Interrupted?
    ensures Enabled(s, t, Receive(key)) && Next(s, t, Receive(key)).Pc(t) == Receiving(key)
    ensures Enabled(s, t, Send(key, value)) && Next(s, t, Send(key, value)).Pc(t) == Sending(key, value)
  {
  }

  // The value under a key of a map, read off the run: the last one stored there and not yet taken.
  ghost function LastStored(entries: map<nat, int>, run: seq<(nat, Action)>, key: nat): Option<int> {
    if run == [] then (if key in entries then Some(entries[key]) else None) else
      var n := |run| - 1;
      var s := StateAfter(Table(entries), run[..n]);
      var (t, a) := run[n];
      if !Enabled(s, t, a) then LastStored(entries, run[..n], key)
      else if a.Put? && s.Pc(t).key == key then Some(s.Pc(t).value)
      else if a.Look? && s.Pc(t).key == key then None
      else LastStored(entries, run[..n], key)
  }

  lemma NextEntries(s: State, t: nat, a: Action)
    requires Enabled(s, t, a) && s.store.Table? && !a.Put? && !a.Look?
    ensures Next(s, t, a).store == s.store
  {
  }

  // A map holds under every key what was stored there last, unless it has been received.
  lemma {:induction false} MapHoldsLastStored(entries: map<nat, int>, run: seq<(nat, Action)>, key: nat)
    ensures var s := StateAfter(Table(entries), run);
            && s.store.Table?
            && LastStored(entries, run, key) == if key in s.store.entries then Some(s.store.entries[key]) else None
    decreases |run|
  {
    hide Next, Enabled, Inv;
    if run != [] {
      var n := |run| - 1;
      MapHoldsLastStored(entries, run[..n], key);
      var s := StateAfter(Table(entries), run[..n]);
      var (t, a) := run[n];
      if Enabled(s, t, a) {
        if a.Put? {
          PutExact(s, t);
        } else if a.Look? {
          LookExact(s, t);
        } else {
          NextEntries(s, t, a);
        }
      }
    }
  }
}
