/**
 What the interning pool promises, as a state machine: symbols are acquired and released,
 and each live symbol has a string and a reference count. The theorems are about every run
 of the machine; the pool's methods are shown to be its steps.
 */
module Interning {
  import opened Basics

  datatype Symbol = Symbol(str: seq<byte>, refCount: nat)

  /** The live symbols. 0 is never one: it is the null symbol. */
  type Live = map<nat, Symbol>

  datatype Event = Acquired(str: seq<byte>, sym: nat) | Released(sym: nat)

  /** No two symbols have the same string, and each is held at least once. */
  predicate Unique(live: Live) {
    && 0 !in live
    && (forall x :: x in live ==> live[x].refCount >= 1)
    && forall x, y :: x in live && y in live && live[x].str == live[y].str ==> x == y
  }

  /** Acquiring a string: its symbol if it has one, a fresh one otherwise, or 0 when there is no room. */
  predicate Acquire(live: Live, reserved: nat, str: seq<byte>, sym: nat, live': Live) {
    if sym == 0 then live' == live && forall x :: x in live ==> live[x].str != str
    else if sym in live then
      && live[sym].str == str
      && live' == if sym < reserved then live else live[sym := Symbol(str, live[sym].refCount + 1)]
    else
      && live' == live[sym := Symbol(str, 1)] && forall x :: x in live ==> live[x].str != str
  }

  /** Releasing: reserved and dead symbols are left alone, the last release removes the symbol. */
  predicate Release(live: Live, reserved: nat, sym: nat, live': Live) {
    if sym < reserved || sym !in live then live' == live
    else if live[sym].refCount > 1 then live' == live[sym := Symbol(live[sym].str, live[sym].refCount - 1)]
    else live' == live - {sym}
  }

  predicate Step(live: Live, reserved: nat, e: Event, live': Live) {
    match e
    case Acquired(str, sym) => Acquire(live, reserved, str, sym, live')
    case Released(sym) => Release(live, reserved, sym, live')
  }

  /** `states[i]` and `states[i + 1]` are before and after `events[i]`. */
  predicate Run(reserved: nat, states: seq<Live>, events: seq<Event>) {
    && |states| == |events| + 1
    && forall i: nat :: i < |events| ==> Step(states[i], reserved, events[i], states[i + 1])
  }

  lemma StepKeepsUnique(live: Live, reserved: nat, e: Event, live': Live)
    requires Unique(live) && Step(live, reserved, e, live')
    ensures Unique(live')
  {
  }

  lemma {:induction false} RunKeepsUnique(reserved: nat, states: seq<Live>, events: seq<Event>, t: nat)
    requires Run(reserved, states, events) && Unique(states[0]) && t < |states|
    ensures Unique(states[t])
  {
    if t > 0 {
      RunKeepsUnique(reserved, states, events, t - 1);
      StepKeepsUnique(states[t - 1], reserved, events[t - 1], states[t]);
    }
  }

  /** Acquisitions minus releases of `sym` in the events from `start` up to `end`. */
  function Balance(events: seq<Event>, sym: nat, start: nat, end: nat): (n: int)
    requires start <= end <= |events|
    decreases end
  {
    if start == end then 0
    else
      Balance(events, sym, start, end - 1) +
      match events[end - 1]
      case Acquired(_, s) => if s == sym then 1 else 0
      case Released(s) => if s == sym then -1 else 0
  }

  /** The releases have not caught up with the references at any time up to `end`. */
  predicate HeldThroughout(events: seq<Event>, sym: nat, count: nat, start: nat, end: nat)
    requires start <= end <= |events|
  {
    forall t: nat :: start <= t <= end ==> count + Balance(events, sym, start, t) > 0
  }

  lemma StepKeepsHeld(live: Live, reserved: nat, e: Event, live': Live, sym: nat)
    requires Unique(live) && sym in live && sym >= reserved && Step(live, reserved, e, live')
    ensures var delta := match e { case Acquired(_, s) => if s == sym then 1 else 0
                                   case Released(s) => if s == sym then -1 else 0 };
            if live[sym].refCount + delta > 0 then
              sym in live' && live'[sym] == Symbol(live[sym].str, live[sym].refCount + delta)
            else sym !in live'
  {
  }

  /** A symbol keeps its string, and counts its references exactly, until its releases match its acquisitions. */
  lemma {:induction false} SymbolLifetime(reserved: nat, states: seq<Live>, events: seq<Event>, sym: nat, start: nat, end: nat)
    requires Run(reserved, states, events) && Unique(states[0]) && start <= end < |states|
    requires sym in states[start] && sym >= reserved
    requires HeldThroughout(events, sym, states[start][sym].refCount, start, end)
    ensures sym in states[end] && states[end][sym].str == states[start][sym].str
    ensures states[end][sym].refCount == states[start][sym].refCount + Balance(events, sym, start, end)
    decreases end
  {
    if start < end {
      SymbolLifetime(reserved, states, events, sym, start, end - 1);
      RunKeepsUnique(reserved, states, events, end - 1);
      StepKeepsHeld(states[end - 1], reserved, events[end - 1], states[end], sym);
      assert states[start][sym].refCount + Balance(events, sym, start, end) > 0;
    }
  }

  /** And it is gone as soon as they do. */
  lemma SymbolEnds(reserved: nat, states: seq<Live>, events: seq<Event>, sym: nat, start: nat, end: nat)
    requires Run(reserved, states, events) && Unique(states[0]) && start < end < |states|
    requires sym in states[start] && sym >= reserved
    requires HeldThroughout(events, sym, states[start][sym].refCount, start, end - 1)
    requires states[start][sym].refCount + Balance(events, sym, start, end) == 0
    ensures sym !in states[end]
  {
    SymbolLifetime(reserved, states, events, sym, start, end - 1);
    RunKeepsUnique(reserved, states, events, end - 1);
    StepKeepsHeld(states[end - 1], reserved, events[end - 1], states[end], sym);
  }

  /** Reserved symbols never change. */
  lemma {:induction false} ReservedLifetime(reserved: nat, states: seq<Live>, events: seq<Event>, sym: nat, start: nat, end: nat)
    requires Run(reserved, states, events) && Unique(states[0]) && start <= end < |states|
    requires sym in states[start] && sym < reserved
    ensures sym in states[end] && states[end][sym] == states[start][sym]
    decreases end
  {
    if start < end {
      ReservedLifetime(reserved, states, events, sym, start, end - 1);
      RunKeepsUnique(reserved, states, events, end - 1);
      assert Step(states[end - 1], reserved, events[end - 1], states[end]);
    }
  }

  /** Held from just after event `i` to just before event `j`. */
  predicate Held(reserved: nat, states: seq<Live>, events: seq<Event>, sym: nat, i: nat, j: nat)
    requires |states| == |events| + 1 && i < j <= |events|
  {
    sym < reserved || (sym in states[i + 1] && HeldThroughout(events, sym, states[i + 1][sym].refCount, i + 1, j))
  }

  /**
   Interning: a symbol acquired for one string and still held when a symbol is acquired for
   another is the same symbol exactly when the strings are the same.
   */
  lemma EqualIffSameString(reserved: nat, states: seq<Live>, events: seq<Event>, i: nat, j: nat)
    requires Run(reserved, states, events) && Unique(states[0]) && i < j < |events|
    requires events[i].Acquired? && events[j].Acquired? && events[i].sym != 0 && events[j].sym != 0
    requires Held(reserved, states, events, events[i].sym, i, j)
    ensures events[i].sym == events[j].sym <==> events[i].str == events[j].str
  {
    var sym := events[i].sym;
    RunKeepsUnique(reserved, states, events, i);
    RunKeepsUnique(reserved, states, events, j);
    assert Step(states[i], reserved, events[i], states[i + 1]);
    assert sym in states[i + 1] && states[i + 1][sym].str == events[i].str;
    if sym < reserved {
      ReservedLifetime(reserved, states, events, sym, i + 1, j);
    } else {
      SymbolLifetime(reserved, states, events, sym, i + 1, j);
    }
    assert Step(states[j], reserved, events[j], states[j + 1]);
  }
}
