// The list of contexts waiting on futexes, and waking them.
module Futexes {
  datatype Entry = Entry(address: nat, context: nat)

  function Waiting(entries: seq<Entry>, address: nat): (n: nat)
    ensures n <= |entries|
  {
    if entries == [] then 0 else Waiting(entries[1..], address) + if entries[0].address == address then 1 else 0
  }

  // The last entry takes the place of the removed one.
  function SwapRemoved(entries: seq<Entry>, i: nat): (r: seq<Entry>)
    requires i < |entries|
    ensures multiset(r) + multiset{entries[i]} == multiset(entries)
    ensures |r| == |entries| - 1 && r[..i] == entries[..i]
  {
    var last := |entries| - 1;
    assert entries == entries[..last] + [entries[last]];
    if i == last then entries[..last] else entries[..last][i := entries[last]]
  }

  lemma {:induction false} WaitingJoin(a: seq<Entry>, b: seq<Entry>, address: nat)
    ensures Waiting(a + b, address) == Waiting(a, address) + Waiting(b, address)
  {
    if a == [] {
      assert a + b == b;
    } else {
      assert (a + b)[1..] == a[1..] + b;
      WaitingJoin(a[1..], b, address);
    }
  }

  lemma WaitingOne(e: Entry, address: nat)
    ensures Waiting([e], address) == if e.address == address then 1 else 0
  {
  }

  lemma WaitingSwapRemoved(entries: seq<Entry>, i: nat, address: nat)
    requires i < |entries| && entries[i].address == address
    ensures Waiting(SwapRemoved(entries, i), address) == Waiting(entries, address) - 1
  {
    var last := |entries| - 1;
    var e, l := [entries[i]], [entries[last]];
    WaitingOne(entries[i], address);
    if i == last {
      WaitingJoin(entries[..last], l, address);
      assert entries == entries[..last] + l;
    } else {
      var head, mid := entries[..i], entries[i + 1..last];
      WaitingJoin(head, e, address);
      WaitingJoin(head + e, mid, address);
      WaitingJoin(head + e + mid, l, address);
      WaitingJoin(head, l, address);
      WaitingJoin(head + l, mid, address);
      assert entries == head + e + mid + l;
      assert SwapRemoved(entries, i) == head + l + mid;
    }
  }

  // Nothing waits in a stretch where no entry matches.
  lemma {:induction false} WaitingNone(entries: seq<Entry>, address: nat)
    requires forall k :: 0 <= k < |entries| ==> entries[k].address != address
    ensures Waiting(entries, address) == 0
  {
    if entries != [] {
      WaitingNone(entries[1..], address);
    }
  }

  // Contexts of some entries.
  function ContextsOf(entries: seq<Entry>): set<nat> {
    set e | e in entries :: e.context
  }

  lemma ContextsOfPush(entries: seq<Entry>, e: Entry)
    ensures ContextsOf([]) == {} && ContextsOf(entries + [e]) == ContextsOf(entries) + {e.context}
  {
  }

  class FutexList {
    var entries: seq<Entry>
    var blocked: set<nat>

    constructor (blocked: set<nat>)
      ensures entries == [] && this.blocked == blocked
    {
      entries, this.blocked := [], blocked;
    }

    // FUTEX_WAIT, once the value was found to be the expected one.
    method Wait(address: nat, context: nat)
      modifies this
      ensures entries == old(entries) + [Entry(address, context)] && blocked == old(blocked) + {context}
    {
      blocked := blocked + {context};
      entries := entries + [Entry(address, context)];
    }

    // FUTEX_WAKE: takes off and unblocks as many entries for the address as there are, up to `val`, and
    // keeps all others.
    method Wake(address: nat, val: nat) returns (woken: nat, ghost removed: seq<Entry>)
      modifies this
      ensures woken == if val < Waiting(old(entries), address) then val else Waiting(old(entries), address)
      ensures |removed| == woken && forall k :: 0 <= k < woken ==> removed[k].address == address
      ensures multiset(entries) + multiset(removed) == multiset(old(entries))
      ensures blocked == old(blocked) - ContextsOf(removed)
    {
      hide Waiting, SwapRemoved, ContextsOf;
      woken, removed := 0, [];
      ContextsOfPush([], Entry(address, 0));
      var i := 0;
      while i < |entries| && woken < val
        invariant i <= |entries| && woken <= val && |removed| == woken
        invariant forall k :: 0 <= k < woken ==> removed[k].address == address
        invariant multiset(entries) + multiset(removed) == multiset(old(entries))
        invariant Waiting(entries, address) + woken == Waiting(old(entries), address)
        invariant forall k :: 0 <= k < i ==> entries[k].address != address
        invariant blocked == old(blocked) - ContextsOf(removed)
        decreases |entries| - i
      {
        if entries[i].address != address {
          i := i + 1;
        } else {
          var e := entries[i];
          ContextsOfPush(removed, e);
          WaitingSwapRemoved(entries, i, address);
          entries := SwapRemoved(entries, i);
          blocked := blocked - {e.context};
          woken := woken + 1;
          removed := removed + [e];
        }
      }
      if i == |entries| {
        WaitingNone(entries, address);
      }
    }
  }
}
