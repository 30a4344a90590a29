/** The countdown a time wheel implements, without the wheel: how many further ticks each
    timer lets pass before the tick that fires it. */
module Countdown {

  datatype Event<T> = Add(t: T, ticks: nat) | Delete(t: T) | Tick

  /** The timers a tick fires. */
  function Due<T>(bag: map<T, nat>): set<T>
  {
    set t <- bag | bag[t] == 0
  }

  /** What a tick leaves: every other timer is one tick closer. */
  function Ticked<T>(bag: map<T, nat>): map<T, nat>
  {
    map t <- bag | bag[t] > 0 :: bag[t] - 1
  }

  /** What one event does to the countdown. */
  function Apply<T>(bag: map<T, nat>, e: Event<T>): map<T, nat>
  {
    match e
    case Add(t, ticks) => bag[t := ticks]
    case Delete(t) => bag - {t}
    case Tick => Ticked(bag)
  }

  function After<T>(bag: map<T, nat>, events: seq<Event<T>>): map<T, nat>
    decreases |events|
  {
    if events == [] then bag else After(Apply(bag, events[0]), events[1..])
  }

  lemma {:induction false} AfterMore<T>(bag: map<T, nat>, events: seq<Event<T>>, more: seq<Event<T>>)
    ensures After(bag, events + more) == After(After(bag, events), more)
    decreases |events|
  {
    if events == [] {
      assert events + more == more;
    } else {
      assert (events + more)[1..] == events[1..] + more;
      AfterMore(Apply(bag, events[0]), events[1..], more);
    }
  }

  lemma AfterOne<T>(bag: map<T, nat>, events: seq<Event<T>>, e: Event<T>)
    ensures After(bag, events + [e]) == Apply(After(bag, events), e)
  {
    AfterMore(bag, events, [e]);
  }

  function Ticks<T>(events: seq<Event<T>>): nat
  {
    if events == [] then 0 else (if events[0].Tick? then 1 else 0) + Ticks(events[1..])
  }

  /** Ticks counts the ticks among the events. */
  lemma {:induction false} TicksMeans<T>(events: seq<Event<T>>)
    ensures Ticks(events) == multiset(events)[Event.Tick]
  {
    if events != [] {
      TicksMeans(events[1..]);
      assert events == [events[0]] + events[1..];
      assert multiset(events) == multiset{events[0]} + multiset(events[1..]);
    }
  }

  /** What is due and what is left, timer by timer. */
  lemma TickMeans<T>(bag: map<T, nat>, t: T)
    ensures t in Due(bag) <==> t in bag && bag[t] == 0
    ensures t in Ticked(bag) <==> t in bag && bag[t] > 0
    ensures t in Ticked(bag) ==> Ticked(bag)[t] == bag[t] - 1
  {
  }

  /** No event adds or deletes t. */
  predicate Untouched<T(==)>(events: seq<Event<T>>, t: T)
  {
    forall e <- events :: e.Tick? || e.t != t
  }

  /** An absent timer stays absent. */
  lemma {:induction false} StaysAway<T>(bag: map<T, nat>, events: seq<Event<T>>, t: T)
    requires t !in bag && Untouched(events, t)
    ensures t !in After(bag, events)
    decreases |events|
  {
    if events != [] {
      assert events[0] in events;
      assert Untouched(events[1..], t);
      StaysAway(Apply(bag, events[0]), events[1..], t);
    }
  }

  /** Whatever else is added or deleted, a timer counts down one per tick and then is gone. */
  lemma {:induction false} CountsDown<T>(bag: map<T, nat>, events: seq<Event<T>>, t: T)
    requires t in bag && Untouched(events, t)
    ensures if Ticks(events) <= bag[t] then t in After(bag, events) && After(bag, events)[t] == bag[t] - Ticks(events)
            else t !in After(bag, events)
    decreases |events|
  {
    if events != [] {
      assert events[0] in events;
      assert Untouched(events[1..], t);
      if events[0].Tick? && bag[t] == 0 {
        StaysAway(Ticked(bag), events[1..], t);
      } else {
        CountsDown(Apply(bag, events[0]), events[1..], t);
      }
    }
  }

  /** A timer added with `ticks` fires in call number ticks + 1 of tick after that, and in no
      other call: `before` are the events between the add and the call. */
  lemma FiresOnce<T>(bag: map<T, nat>, before: seq<Event<T>>, t: T, ticks: nat)
    requires Untouched(before, t)
    ensures t in Due(After(bag[t := ticks], before)) <==> Ticks(before) + 1 == ticks + 1
  {
    CountsDown(bag[t := ticks], before, t);
  }
}

/** The time wheel of 11/11-5tw_timer.h: N slots, each a doubly linked list of timers that
    expire when the hand has passed them `rotation` more times. */
module TimeWheel {
  import opened Countdown
  import opened Cyclic
  import opened Sequences

  class TwTimer {
    const timeSlot: nat
    var rotation: int
    var next: TwTimer?
    var prev: TwTimer?

    constructor (rot: int, ts: nat)
      ensures rotation == rot && timeSlot == ts && next == null && prev == null
    {
      timeSlot, rotation, next, prev := ts, rot, null, null;
    }
  }

  // ---------- one slot ----------

  function Get(chain: seq<TwTimer>, i: int): TwTimer?
  {
    if 0 <= i < |chain| then chain[i] else null
  }

  ghost predicate NextLinks(chain: seq<TwTimer>, x: int, y: int)
    reads chain`next
  {
    forall i | 0 <= i < |chain| && i != x && i != y :: chain[i].next == Get(chain, i + 1)
  }

  ghost predicate PrevLinks(chain: seq<TwTimer>, x: int, y: int)
    reads chain`prev
  {
    forall i | 0 <= i < |chain| && i != x && i != y :: chain[i].prev == Get(chain, i - 1)
  }

  /** The chain hangs in slot k, linked both ways. */
  ghost predicate Hangs(chain: seq<TwTimer>, first: TwTimer?, k: nat)
    reads chain`prev, chain`next
  {
    && Distinct(chain) && NextLinks(chain, -1, -1) && PrevLinks(chain, -1, -1)
    && first == Get(chain, 0)
    && forall t <- chain :: t.timeSlot == k
  }

  function Cons(timer: TwTimer, chain: seq<TwTimer>): (r: seq<TwTimer>)
    ensures |r| == |chain| + 1 && r[0] == timer && forall i | 0 < i < |r| :: r[i] == chain[i - 1]
  {
    [timer] + chain
  }

  lemma RemovedMembers(chain: seq<TwTimer>, i: nat)
    requires i < |chain| && Distinct(chain)
    ensures forall t :: t in RemoveAt(chain, i) <==> t in chain && t != chain[i]
  {
    var r := RemoveAt(chain, i);
    forall t | t in chain && t != chain[i]
      ensures t in r
    {
      var j :| 0 <= j < |chain| && chain[j] == t;
      assert r[if j < i then j else j - 1] == t;
    }
  }

  lemma HungFirst(chain: seq<TwTimer>, timer: TwTimer, k: nat)
    requires Distinct(chain) && timer !in chain && (forall t <- chain :: t.timeSlot == k) && timer.timeSlot == k
    requires NextLinks(chain, -1, -1) && timer.next == Get(chain, 0)
    requires PrevLinks(chain, 0, -1) && timer.prev == null && (chain != [] ==> chain[0].prev == timer)
    ensures Hangs(Cons(timer, chain), timer, k)
  {
    var r := Cons(timer, chain);
    hide Cons;
    assert Distinct(r);
    assert NextLinks(r, -1, -1);
    assert PrevLinks(r, -1, -1);
    assert forall i | 0 <= i < |r| :: r[i].timeSlot == k;
  }

  lemma NextWithout(chain: seq<TwTimer>, r: seq<TwTimer>, i: nat)
    requires i < |chain| && r == RemoveAt(chain, i)
    requires NextLinks(chain, i - 1, i) && (i > 0 ==> chain[i - 1].next == Get(chain, i + 1))
    ensures NextLinks(r, -1, -1)
  {
    hide RemoveAt;
  }

  lemma PrevWithout(chain: seq<TwTimer>, r: seq<TwTimer>, i: nat)
    requires i < |chain| && r == RemoveAt(chain, i)
    requires PrevLinks(chain, i, i + 1) && (i + 1 < |chain| ==> chain[i + 1].prev == Get(chain, i - 1))
    ensures PrevLinks(r, -1, -1)
  {
    hide RemoveAt;
  }

  lemma TakenOut(chain: seq<TwTimer>, i: nat, k: nat)
    requires i < |chain| && Distinct(chain) && forall t <- chain :: t.timeSlot == k
    requires NextLinks(chain, i - 1, i) && (i > 0 ==> chain[i - 1].next == Get(chain, i + 1))
    requires PrevLinks(chain, i, i + 1) && (i + 1 < |chain| ==> chain[i + 1].prev == Get(chain, i - 1))
    ensures Hangs(RemoveAt(chain, i), Get(RemoveAt(chain, i), 0), k)
  {
    hide RemoveAt, NextLinks, PrevLinks;
    var r := RemoveAt(chain, i);
    NextWithout(chain, r, i);
    PrevWithout(chain, r, i);
    assert Distinct(r);
    assert forall i | 0 <= i < |r| :: r[i].timeSlot == k;
  }

  lemma Neighbours(chain: seq<TwTimer>, first: TwTimer?, k: nat, i: nat)
    requires Hangs(chain, first, k) && i < |chain|
    ensures chain[i].next == Get(chain, i + 1) && chain[i].prev == Get(chain, i - 1)
    ensures chain[i] == first <==> i == 0
    ensures chain[i].timeSlot == k
  {
  }

  // ---------- the hand ----------

  /** The ticks that a timeout asks for. */
  function TicksFor(timeout: nat, ti: nat): nat
    requires ti > 0
  {
    if timeout < ti then 1 else timeout / ti
  }

  lemma WrapMod(x: nat, n: nat)
    requires n > 0 && x < 2 * n
    ensures x % n == if x < n then x else x - n
  {
    if x >= n {
      assert x == n * 1 + (x - n);
    }
  }

  /** The slot and rotation add_timer computes stand for exactly the ticks wanted. */
  lemma PlacedAt(cur: nat, ticks: nat, n: nat)
    requires cur < n
    ensures var ts := (cur + ticks % n) % n;
            ts < n && ticks / n * n + Distance(cur, ts, n) == ticks
  {
    var d := ticks % n;
    WrapMod(cur + d, n);
    assert ticks == n * (ticks / n) + d;
    assert n * (ticks / n) == ticks / n * n;
  }

  /** Moving the hand one slot brings every timer one tick closer: a timer of the hand's own
      slot pays with one rotation, or fires. */
  lemma HandMoves(cur: nat, slot: nat, rotation: nat, n: nat)
    requires cur < n && slot < n
    ensures (rotation * n + Distance(cur, slot, n) == 0) <==> (rotation == 0 && slot == cur)
    ensures var left := rotation - (if slot == cur then 1 else 0);
            left * n + Distance((cur + 1) % n, slot, n) == rotation * n + Distance(cur, slot, n) - 1
  {
    WrapMod(cur + 1, n);
    assert (rotation - 1) * n == rotation * n - n;
    if rotation > 0 {
      assert rotation * n >= n;
    }
  }

  /** max(1, timeout / ti). */
  lemma AtLeastOnce(timeout: nat, ti: nat)
    requires ti > 0
    ensures TicksFor(timeout, ti) == if timeout / ti > 1 then timeout / ti else 1
  {
    assert timeout == ti * (timeout / ti) + timeout % ti;
  }

  predicate InSlot(all: set<TwTimer>, chain: seq<TwTimer>, k: nat)
  {
    forall t <- chain :: t in all && t.timeSlot == k
  }

  /** `all` are the timers on the chains, each in the chain of its slot. */
  predicate Filed(all: set<TwTimer>, chains: seq<seq<TwTimer>>)
  {
    && (forall t <- all :: t.timeSlot < |chains| && t in chains[t.timeSlot])
    && (forall k | 0 <= k < |chains| :: InSlot(all, chains[k], k))
  }

  lemma FiledAfterRemove(all: set<TwTimer>, chains: seq<seq<TwTimer>>, ts: nat, i: nat)
    requires Filed(all, chains) && ts < |chains| && Distinct(chains[ts]) && i < |chains[ts]|
    ensures Filed(all - {chains[ts][i]}, chains[ts := RemoveAt(chains[ts], i)])
  {
    RemovedMembers(chains[ts], i);
    assert InSlot(all, chains[ts], ts);
    hide RemoveAt;
  }

  lemma FiledAfterCons(all: set<TwTimer>, chains: seq<seq<TwTimer>>, ts: nat, timer: TwTimer)
    requires Filed(all, chains) && ts < |chains| && timer.timeSlot == ts
    ensures Filed(all + {timer}, chains[ts := Cons(timer, chains[ts])])
  {
    var r := Cons(timer, chains[ts]);
    assert forall t :: t in r <==> t == timer || t in chains[ts];
    assert forall k | 0 <= k < |chains| :: InSlot(all, chains[k], k);
    hide Cons;
  }

  /** Different slots hold different timers. */
  lemma Apart(all: set<TwTimer>, chains: seq<seq<TwTimer>>, ts: nat)
    requires Filed(all, chains) && ts < |chains|
    ensures forall k, j | 0 <= k < |chains| && k != ts && 0 <= j < |chains[k]| :: chains[k][j] !in chains[ts]
    ensures forall t <- chains[ts] :: t in all
  {
    assert InSlot(all, chains[ts], ts);
    forall k, j | 0 <= k < |chains| && k != ts && 0 <= j < |chains[k]|
      ensures chains[k][j] !in chains[ts]
    {
      assert InSlot(all, chains[k], k);
    }
  }

  lemma Absent(all: set<TwTimer>, chains: seq<seq<TwTimer>>, timer: TwTimer)
    requires Filed(all, chains) && timer !in all
    ensures forall k | 0 <= k < |chains| :: timer !in chains[k]
  {
    assert forall k | 0 <= k < |chains| :: InSlot(all, chains[k], k);
  }

  // ---------- halfway through a tick ----------

  /** `called` are the timers of rot0 (the rotations before the tick) that are gone from
      `all`: each had come to the hand's slot with no rotation left. */
  predicate Gone(rot0: map<TwTimer, nat>, all: set<TwTimer>, called: seq<TwTimer>, cur: nat)
  {
    && Distinct(called)
    && (forall t <- called :: t in rot0 && rot0[t] == 0 && t.timeSlot == cur && t !in all)
    && (forall t <- rot0 :: t in all || t in called)
    && forall t <- all :: t in rot0
  }

  /** `passed` are the first p timers of the hand's slot. */
  predicate PassedUpTo(passed: set<TwTimer>, chain: seq<TwTimer>, p: nat)
  {
    && p <= |chain|
    && (forall t <- passed :: t in chain)
    && forall j | 0 <= j < |chain| :: chain[j] in passed <==> j < p
  }

  lemma GoneGrows(rot0: map<TwTimer, nat>, all: set<TwTimer>, called: seq<TwTimer>, cur: nat, timer: TwTimer)
    requires Gone(rot0, all, called, cur) && timer in all && rot0[timer] == 0 && timer.timeSlot == cur
    ensures Gone(rot0, all - {timer}, called + [timer], cur)
  {
    var c := called + [timer];
    forall t | t in c
      ensures t in rot0 && rot0[t] == 0 && t.timeSlot == cur && t !in all - {timer}
    {
      assert t in called || t == timer;
    }
    forall t | t in rot0
      ensures t in all - {timer} || t in c
    {
      assert t in called ==> t in c;
    }
  }

  lemma PassedOne(passed: set<TwTimer>, chain: seq<TwTimer>, p: nat)
    requires PassedUpTo(passed, chain, p) && p < |chain| && Distinct(chain)
    ensures PassedUpTo(passed + {chain[p]}, chain, p + 1) && chain[p] !in passed
  {
  }

  lemma PassedStays(passed: set<TwTimer>, chain: seq<TwTimer>, p: nat)
    requires PassedUpTo(passed, chain, p) && p < |chain| && Distinct(chain)
    ensures PassedUpTo(passed, RemoveAt(chain, p), p) && chain[p] !in passed
  {
    RemovedMembers(chain, p);
    hide RemoveAt;
  }

  lemma NextAfter(chain: seq<TwTimer>, p: nat)
    requires p < |chain|
    ensures Get(RemoveAt(chain, p), p) == Get(chain, p + 1)
  {
  }

  /** The remaining ticks of every timer, from rotations. */
  function Remaining(rot: map<TwTimer, nat>, cur: nat, n: nat): (bag: map<TwTimer, nat>)
    requires cur < n && forall t <- rot :: t.timeSlot < n
    ensures bag.Keys == rot.Keys
  {
    map t <- rot :: rot[t] * n + Distance(cur, t.timeSlot, n)
  }

  /** Once the hand's slot is passed, what is left is the old bag one tick later. */
  lemma RemainingTicks(rot0: map<TwTimer, nat>, rot: map<TwTimer, nat>, called: seq<TwTimer>, cur: nat, n: nat)
    requires cur < n && forall t <- rot0 :: t.timeSlot < n
    requires Gone(rot0, rot.Keys, called, cur)
    requires forall t <- rot :: rot0[t] == rot[t] + if t.timeSlot == cur then 1 else 0
    ensures Remaining(rot, (cur + 1) % n, n) == Ticked(Remaining(rot0, cur, n))
    ensures forall t :: t in called <==> t in Due(Remaining(rot0, cur, n))
  {
    var was, now := Remaining(rot0, cur, n), Remaining(rot, (cur + 1) % n, n);
    forall t | t in rot0
      ensures was[t] == 0 <==> t in called
      ensures t in rot <==> was[t] > 0
      ensures t in rot ==> now[t] == was[t] - 1
    {
      HandMoves(cur, t.timeSlot, rot0[t], n);
    }
    hide Distance, Remaining;
    assert now.Keys == Ticked(was).Keys;
  }

  class Wheel {
    const n: nat
    const ti: nat
    const slots: array<TwTimer?>
    var curSlot: nat
    ghost var all: set<TwTimer>
    ghost var chains: seq<seq<TwTimer>>
    /** The timers called back so far. */
    ghost var fired: seq<TwTimer>
    /** Everything that happened to the wheel so far. */
    ghost var history: seq<Event<TwTimer>>

    /** Every chain hangs in its slot. */
    ghost predicate Linked()
      reads this`all, this`chains, slots, all
    {
      && slots.Length == n == |chains| && Filed(all, chains)
      && forall k | 0 <= k < n :: Hangs(chains[k], slots[k], k)
    }

    /** Removes the timer at position i of its slot. */
    method UnlinkIn(timer: TwTimer, ghost i: nat, ghost chain: seq<TwTimer>)
      requires timer.timeSlot < slots.Length && i < |chain| && chain[i] == timer
      requires Hangs(chain, slots[timer.timeSlot], timer.timeSlot)
      modifies slots, chain`prev, chain`next
      ensures Hangs(RemoveAt(chain, i), slots[timer.timeSlot], timer.timeSlot)
      ensures forall k | 0 <= k < slots.Length && k != timer.timeSlot :: slots[k] == old(slots[k])
      ensures timer.next == old(timer.next)
    {
      hide RemoveAt;
      var ts := timer.timeSlot;
      Neighbours(chain, slots[ts], ts, i);
      if timer == slots[ts] {
        slots[ts] := timer.next;
        if slots[ts] != null {
          slots[ts].prev := null;
        }
      } else {
        timer.prev.next := timer.next;
        if timer.next != null {
          timer.next.prev := timer.prev;
        }
      }
      TakenOut(chain, i, ts);
    }

    /** The pointer work of del_timer, and of tick for a timer that fires. */
    method Unlink(timer: TwTimer, ghost i: nat)
      requires Linked() && timer in all && timer.timeSlot < n
      requires i < |chains[timer.timeSlot]| && chains[timer.timeSlot][i] == timer
      modifies `all, `chains, slots, all`prev, all`next
      ensures Linked()
      ensures chains == old(chains)[timer.timeSlot := RemoveAt(old(chains)[timer.timeSlot], i)]
      ensures all == old(all) - {timer}
      ensures timer.next == old(timer.next)
    {
      hide RemoveAt, Filed, Get, Distinct;
      ghost var ts, chain := timer.timeSlot, chains[timer.timeSlot];
      Apart(all, chains, ts);
      FiledAfterRemove(all, chains, ts, i);
      chains := chains[ts := RemoveAt(chain, i)];
      all := all - {timer};
      UnlinkIn(timer, i, chain);
      forall k | 0 <= k < |chains| && k != ts
        ensures Hangs(chains[k], slots[k], k)
      {
      }
    }

    /** The hand and the counters make sense. */
    ghost predicate Counting()
      reads `all, `curSlot, all`rotation
    {
      && n > 0 && ti > 0 && curSlot < n
      && forall t <- all :: t.rotation >= 0 && t.timeSlot < n
    }

    ghost predicate Valid()
      reads this, slots, all
    {
      Linked() && Counting()
    }

    ghost function Rotations(): (rot: map<TwTimer, nat>)
      reads `all, `curSlot, all`rotation
      requires Counting()
      ensures rot.Keys == all
    {
      map t <- all :: t.rotation
    }

    /** The abstract wheel: how many ticks each timer still lets pass. */
    ghost function Bag(): (bag: map<TwTimer, nat>)
      reads `all, `curSlot, all`rotation
      requires Counting()
      ensures bag.Keys == all
    {
      Remaining(Rotations(), curSlot, n)
    }

    /** The wheel has counted down as its history says. */
    ghost predicate Recorded()
      reads `all, `curSlot, `history, all`rotation
      requires Counting()
    {
      Bag() == After(map[], history)
    }

    constructor (slotCount: nat, slotTime: nat)
      requires slotCount > 0 && slotTime > 0
      ensures Valid() && fresh(slots) && n == slotCount && ti == slotTime && Bag() == map[] && fired == []
      ensures history == [] && Recorded()
    {
      n, ti := slotCount, slotTime;
      slots := new TwTimer?[slotCount](_ => null);
      curSlot := 0;
      all, fired, history := {}, [], [];
      chains := seq(slotCount, _ => []);
    }

    /** Puts a new timer at the front of its slot. */
    method PushIn(timer: TwTimer, ghost chain: seq<TwTimer>)
      requires timer.timeSlot < slots.Length && Hangs(chain, slots[timer.timeSlot], timer.timeSlot)
      requires timer !in chain && timer.next == null && timer.prev == null
      modifies slots, chain`prev, timer`next
      ensures Hangs(Cons(timer, chain), slots[timer.timeSlot], timer.timeSlot)
      ensures forall k | 0 <= k < slots.Length && k != timer.timeSlot :: slots[k] == old(slots[k])
    {
      hide Cons;
      var ts := timer.timeSlot;
      if slots[ts] == null {
        slots[ts] := timer;
      } else {
        timer.next := slots[ts];
        slots[ts].prev := timer;
        slots[ts] := timer;
      }
      HungFirst(chain, timer, ts);
    }

    method Push(timer: TwTimer)
      requires Linked() && timer.timeSlot < n && timer !in all && timer.next == null && timer.prev == null
      modifies `all, `chains, slots, all`prev, timer`next
      ensures Linked() && all == old(all) + {timer}
    {
      hide Cons, Filed, Get, Distinct;
      ghost var ts, chain := timer.timeSlot, chains[timer.timeSlot];
      Apart(all, chains, ts);
      Absent(all, chains, timer);
      FiledAfterCons(all, chains, ts, timer);
      chains := chains[ts := Cons(timer, chain)];
      all := all + {timer};
      PushIn(timer, chain);
      forall k | 0 <= k < |chains| && k != ts
        ensures Hangs(chains[k], slots[k], k)
      {
      }
    }

    /** The rotation and slot for a timeout. */
    method NewTimer(timeout: nat) returns (timer: TwTimer)
      requires Linked() && Counting()
      ensures Linked() && fresh(timer) && timer.next == null && timer.prev == null
      ensures timer.rotation >= 0 && timer.timeSlot < n
      ensures timer.rotation * n + Distance(curSlot, timer.timeSlot, n) == TicksFor(timeout, ti)
    {
      hide Filed, Hangs, Distance, Distinct;
      var ticks := 0;
      if timeout < ti {
        ticks := 1;
      } else {
        ticks := timeout / ti;
      }
      var rotation := ticks / n;
      var ts := (curSlot + ticks % n) % n;
      PlacedAt(curSlot, ticks, n);
      timer := new TwTimer(rotation, ts);
    }

    method AddTimer(timeout: int) returns (timer: TwTimer?)
      requires Valid() && Recorded()
      modifies `all, `chains, `history, slots, all`prev
      ensures Valid() && Recorded()
      ensures timer == null <==> timeout < 0
      ensures timeout < 0 ==> Bag() == old(Bag()) && history == old(history)
      ensures timeout >= 0 ==> fresh(timer) && Bag() == old(Bag())[timer := TicksFor(timeout, ti)]
      ensures timeout >= 0 ==> history == old(history) + [Add(timer, TicksFor(timeout, ti))]
    {
      hide Linked, Distance, TicksFor, Bag, After;
      if timeout < 0 {
        return null;
      }
      timer := Insert(timeout);
      AfterOne(map[], history, Add(timer, TicksFor(timeout, ti)));
      history := history + [Add(timer, TicksFor(timeout, ti))];
    }

    method Insert(timeout: nat) returns (timer: TwTimer)
      requires Valid()
      modifies `all, `chains, slots, all`prev
      ensures Valid() && fresh(timer) && Bag() == old(Bag())[timer := TicksFor(timeout, ti)]
    {
      hide Linked, Distance, TicksFor;
      timer := NewTimer(timeout);
      Push(timer);
    }

    lemma Where(timer: TwTimer) returns (i: nat)
      requires Valid() && timer in all
      ensures i < |chains[timer.timeSlot]| && chains[timer.timeSlot][i] == timer
    {
      i :| 0 <= i < |chains[timer.timeSlot]| && chains[timer.timeSlot][i] == timer;
    }

    method DelTimer(timer: TwTimer?)
      requires Valid() && Recorded() && (timer != null ==> timer in all)
      modifies `all, `chains, `history, slots, all`prev, all`next
      ensures Valid() && Recorded()
      ensures Bag() == if timer == null then old(Bag()) else old(Bag()) - {timer}
      ensures history == if timer == null then old(history) else old(history) + [Delete(timer)]
    {
      hide Linked, Bag, After;
      if timer == null {
        return;
      }
      AfterOne(map[], history, Delete(timer));
      Remove(timer);
      history := history + [Delete(timer)];
    }

    method Remove(timer: TwTimer)
      requires Valid() && timer in all
      modifies `all, `chains, slots, all`prev, all`next
      ensures Valid() && Bag() == old(Bag()) - {timer}
    {
      hide Filed, Hangs;
      ghost var i := Where(timer);
      Unlink(timer, i);
    }

    /** Halfway through a tick, the passed timers have one rotation less than before. */
    ghost predicate Lowered(rot0: map<TwTimer, nat>, passed: set<TwTimer>)
      reads this, all
    {
      forall t <- all :: t in rot0 && (if t in passed then t.rotation + 1 == rot0[t] else t.rotation == rot0[t])
    }

    ghost predicate Passing(rot0: map<TwTimer, nat>, passed: set<TwTimer>, called: seq<TwTimer>, p: nat)
      reads this, all
    {
      && Lowered(rot0, passed) && Gone(rot0, all, called, curSlot)
      && curSlot < |chains| && PassedUpTo(passed, chains[curSlot], p)
    }

    /** Calls the timer at position p of the hand's slot back and takes it out. */
    method Expire(timer: TwTimer, ghost p: nat, ghost rot0: map<TwTimer, nat>,
                  ghost passed: set<TwTimer>, ghost called: seq<TwTimer>)
      requires Valid() && Passing(rot0, passed, called, p)
      requires p < |chains[curSlot]| && chains[curSlot][p] == timer && timer.rotation == 0
      modifies `all, `chains, `fired, slots, all`prev, all`next
      ensures Valid() && Passing(rot0, passed, called + [timer], p)
      ensures fired == old(fired) + [timer] && all == old(all) - {timer}
      ensures timer.next == Get(chains[curSlot], p)
      ensures |chains[curSlot]| == old(|chains[curSlot]|) - 1
    {
      hide Filed, Hangs, Gone, PassedUpTo, Get, Distinct;
      AtHand(p);
      PassedStays(passed, chains[curSlot], p);
      GoneGrows(rot0, all, called, curSlot, timer);
      NextAfter(chains[curSlot], p);
      fired := fired + [timer];
      Unlink(timer, p);
    }

    /** The timer at position p of the hand's slot. */
    lemma AtHand(p: nat)
      requires Valid() && p < |chains[curSlot]|
      ensures var t := chains[curSlot][p]; t in all && t.timeSlot == curSlot && t.next == Get(chains[curSlot], p + 1)
      ensures Distinct(chains[curSlot])
    {
      Apart(all, chains, curSlot);
      Neighbours(chains[curSlot], slots[curSlot], curSlot, p);
    }

    method PassOver(timer: TwTimer, ghost p: nat, ghost rot0: map<TwTimer, nat>,
                    ghost passed: set<TwTimer>, ghost called: seq<TwTimer>)
      requires Valid() && Passing(rot0, passed, called, p)
      requires p < |chains[curSlot]| && chains[curSlot][p] == timer && timer.rotation > 0
      modifies timer`rotation
      ensures Valid() && Passing(rot0, passed + {timer}, called, p + 1)
      ensures timer.next == Get(chains[curSlot], p + 1)
    {
      hide Filed, Hangs, Gone, PassedUpTo, Get, Distinct;
      AtHand(p);
      PassedOne(passed, chains[curSlot], p);
      timer.rotation := timer.rotation - 1;
    }

    lemma Starting(rot0: map<TwTimer, nat>)
      requires Valid() && rot0.Keys == all && forall t <- all :: rot0[t] == t.rotation
      ensures Passing(rot0, {}, [], 0) && slots[curSlot] == Get(chains[curSlot], 0)
    {
      Neighboured();
    }

    lemma Neighboured()
      requires Valid()
      ensures forall t <- all :: t in chains[t.timeSlot]
      ensures slots[curSlot] == Get(chains[curSlot], 0) && forall t <- chains[curSlot] :: t.timeSlot == curSlot
    {
      assert Hangs(chains[curSlot], slots[curSlot], curSlot);
    }

    /** The end of the chain: every timer left in the hand's slot has paid a rotation. */
    lemma Finished(rot0: map<TwTimer, nat>, passed: set<TwTimer>, called: seq<TwTimer>, p: nat)
      requires Valid() && Passing(rot0, passed, called, p) && Get(chains[curSlot], p) == null
      ensures Distinct(called)
      ensures forall t <- all :: t in rot0 && rot0[t] == t.rotation + if t.timeSlot == curSlot then 1 else 0
    {
      Neighboured();
      hide Filed, Hangs, Linked;
      forall t | t in all
        ensures t in passed <==> t.timeSlot == curSlot
      {
        if t.timeSlot == curSlot {
          var j :| 0 <= j < |chains[curSlot]| && chains[curSlot][j] == t;
        }
      }
    }

    /** The loop of tick over the hand's slot. */
    method Pass(ghost rot0: map<TwTimer, nat>) returns (ghost called: seq<TwTimer>)
      requires Valid() && rot0.Keys == all && forall t <- all :: rot0[t] == t.rotation
      modifies `all, `chains, `fired, slots, all`rotation, all`prev, all`next
      ensures Valid() && all <= old(all) && fired == old(fired) + called
      ensures Gone(rot0, all, called, curSlot)
      ensures Distinct(called)
      ensures forall t <- all :: t in rot0 && rot0[t] == t.rotation + if t.timeSlot == curSlot then 1 else 0
    {
      hide Filed, Hangs, Gone, PassedUpTo, Distinct;
      ghost var passed: set<TwTimer>, p: nat := {}, 0;
      called := [];
      Starting(rot0);
      var tmp := slots[curSlot];
      while tmp != null
        invariant Valid() && Passing(rot0, passed, called, p)
        invariant tmp == Get(chains[curSlot], p)
        invariant fired == old(fired) + called
        invariant all <= old(all)
        decreases |chains[curSlot]| - p
      {
        AtHand(p);
        if tmp.rotation > 0 {
          PassOver(tmp, p, rot0, passed, called);
          passed, p := passed + {tmp}, p + 1;
        } else {
          Expire(tmp, p, rot0, passed, called);
          called := called + [tmp];
        }
        tmp := tmp.next;
      }
      Finished(rot0, passed, called, p);
    }

    /** Fires every timer that has come to its turn, and brings every other one tick closer. */
    method Tick()
      requires Valid() && Recorded()
      modifies `all, `chains, `curSlot, `fired, `history, slots, all`rotation, all`prev, all`next
      ensures Valid() && Recorded()
      ensures Bag() == Ticked(old(Bag())) && history == old(history) + [Event.Tick]
      ensures exists called: seq<TwTimer> ::
        fired == old(fired) + called && Distinct(called) && forall t :: t in called <==> t in Due(old(Bag()))
    {
      hide Linked, Gone, Distinct, Distance, Due, Ticked, Remaining, After;
      AfterOne(map[], history, Event.Tick);
      ghost var rot0 := Rotations();
      ghost var called := Pass(rot0);
      ghost var rot := Rotations();
      RemainingTicks(rot0, rot, called, curSlot, n);
      curSlot := (curSlot + 1) % n;
      history := history + [Event.Tick];
      assert Rotations() == rot;
    }

    /** In any state a run of the wheel can reach, a timer that was added with a timeout and
        not deleted since is fired by the next tick if and only if that tick is call number
        max(1, timeout / ti) + 1 after the add. */
    lemma FiresOnSchedule(timer: TwTimer, timeout: nat, before: seq<Event<TwTimer>>, since: seq<Event<TwTimer>>)
      requires Counting() && Recorded()
      requires history == before + ([Add(timer, TicksFor(timeout, ti))] + since) && Untouched(since, timer)
      ensures timer in Due(Bag()) <==> Ticks(since) + 1 == (if timeout / ti > 1 then timeout / ti else 1) + 1
    {
      var ticks := TicksFor(timeout, ti);
      hide TicksFor, Due, Ticks, Bag, Recorded;
      ReadHistory();
      var rest := [Add(timer, ticks)] + since;
      AfterMore(map[], before, rest);
      assert rest[1..] == since;
      AtLeastOnce(timeout, ti);
      FiresOnce(After(map[], before), since, timer, ticks);
    }

    lemma ReadHistory()
      requires Counting() && Recorded()
      ensures Bag() == After(map[], history)
    {
    }
  }
}
