/** The timer heap of 11/11-6time_heap.h: a binary min-heap in an array that doubles when
    full. Cancelling a timer only clears its callback; the entry stays until it expires. */
module TimeHeap {

  class HeapTimer {
    /** Set once, when the timer is made. */
    const expire: int
    /** cb_func is not NULL. */
    var live: bool

    constructor (e: int)
      ensures expire == e && live
    {
      expire, live := e, true;
    }
  }

  type Slots = seq<HeapTimer?>

  function Parent(j: nat): (p: nat)
    requires j > 0
    ensures p < j
  {
    (j - 1) / 2
  }

  ghost predicate NoNull(a: Slots)
  {
    forall j | 0 <= j < |a| :: a[j] != null
  }

  /** Every entry below lo's level is at least its parent, where the parent is at or after lo;
      the children of `open` are not considered. */
  ghost predicate Ordered(a: Slots, lo: int, open: int)
    requires NoNull(a)
  {
    forall j | 1 <= j < |a| && lo <= Parent(j) && Parent(j) != open :: a[Parent(j)].expire <= a[j].expire
  }

  /** A min-heap. */
  ghost predicate IsHeap(a: Slots)
  {
    NoNull(a) && Ordered(a, 0, -1)
  }

  /** The timers an array of slots holds, in any order. */
  ghost function Bag(a: Slots): multiset<HeapTimer?> { multiset(a) }

  function Swap(a: Slots, i: nat, j: nat): (b: Slots)
    requires i < |a| && j < |a|
    ensures |b| == |a|
  {
    a[i := a[j]][j := a[i]]
  }

  lemma SwapKeepsItems(a: Slots, i: nat, j: nat)
    requires i < |a| && j < |a|
    ensures Bag(Swap(a, i, j)) == Bag(a)
  {
  }

  /** State of percolate_down: the timer that sinks stands at h; it came from lo. */
  ghost predicate Sinking(a: Slots, lo: nat, h: nat)
  {
    && NoNull(a) && lo <= h && (h < |a| || a == [])
    && Ordered(a, lo, h)
    && (forall j | 1 <= j < |a| && Parent(j) == h && h > lo && lo <= Parent(h) :: a[Parent(h)].expire <= a[j].expire)
  }

  /** c is the child of h that percolate_down compares with. */
  ghost predicate SmallerChild(a: Slots, h: nat, c: nat)
    requires NoNull(a)
  {
    && (c == 2 * h + 1 || c == 2 * h + 2) && c < |a|
    && a[c].expire <= a[2 * h + 1].expire
    && (2 * h + 2 < |a| ==> a[c].expire <= a[2 * h + 2].expire)
  }

  lemma SinkStarts(a: Slots, lo: nat)
    requires NoNull(a) && (lo < |a| || a == []) && Ordered(a, lo + 1, -1)
    ensures Sinking(a, lo, lo)
  {
  }

  lemma SinkStep(a: Slots, lo: nat, h: nat, c: nat)
    requires Sinking(a, lo, h) && SmallerChild(a, h, c) && a[c].expire < a[h].expire
    ensures Sinking(Swap(a, h, c), lo, c) && NoNull(Swap(a, h, c))
  {
  }

  lemma SinkEndsAtLeaf(a: Slots, lo: nat, h: nat)
    requires Sinking(a, lo, h) && 2 * h + 1 >= |a|
    ensures Ordered(a, lo, -1)
  {
  }

  lemma SinkEndsAbove(a: Slots, lo: nat, h: nat, c: nat)
    requires Sinking(a, lo, h) && h < |a| && SmallerChild(a, h, c) && a[h].expire <= a[c].expire
    ensures Ordered(a, lo, -1)
  {
  }

  /** State of add_timer: the new timer stands at h and may still be smaller than its parent. */
  ghost predicate Rising(a: Slots, h: nat)
  {
    && NoNull(a) && h < |a|
    && (forall j | 1 <= j < |a| && j != h :: a[Parent(j)].expire <= a[j].expire)
    && (forall j | 1 <= j < |a| && Parent(j) == h && h > 0 :: a[Parent(h)].expire <= a[j].expire)
  }

  lemma RiseStep(a: Slots, h: nat)
    requires Rising(a, h) && h > 0 && a[h].expire < a[Parent(h)].expire
    ensures Rising(Swap(a, h, Parent(h)), Parent(h))
  {
  }

  lemma RiseEnds(a: Slots, h: nat)
    requires Rising(a, h) && (h > 0 ==> a[Parent(h)].expire <= a[h].expire)
    ensures IsHeap(a)
  {
  }

  lemma RiseStarts(a: Slots, timer: HeapTimer)
    requires IsHeap(a)
    ensures Rising(a + [timer], |a|)
  {
  }

  lemma AppendToBag(a: Slots, timer: HeapTimer)
    ensures Bag(a + [timer]) == Bag(a) + multiset{timer}
  {
  }

  /** pop_timer: the last entry takes the place of the first one. */
  function Refilled(a: Slots): Slots
    requires a != []
  {
    a[0 := a[|a| - 1]][..|a| - 1]
  }

  lemma MoveLastToFront(a: Slots)
    requires a != [] && IsHeap(a)
    ensures NoNull(Refilled(a)) && Ordered(Refilled(a), 1, -1)
    ensures Bag(a) == Bag(Refilled(a)) + multiset{a[0]}
  {
    var n := |a|;
    if n == 1 {
      assert a == [a[0]];
    } else {
      assert a == [a[0]] + a[1..n - 1] + [a[n - 1]];
      assert Refilled(a) == [a[n - 1]] + a[1..n - 1];
    }
  }

  /** The first entry of a heap is a minimum. */
  lemma {:induction false} RootIsMinimum(a: Slots, j: nat)
    requires IsHeap(a) && j < |a|
    ensures a[0].expire <= a[j].expire
  {
    if j > 0 {
      RootIsMinimum(a, Parent(j));
    }
  }

  /** What ticking at time `cur` does to a collection of timers: `popped` leaves in order of
      expiry, exactly the timers due, and `rest` stays. */
  ghost predicate TickSplits(before: multiset<HeapTimer?>, popped: Slots, rest: multiset<HeapTimer?>, cur: int)
  {
    && NoNull(popped)
    && before == multiset(popped) + rest
    && (forall t <- popped :: t.expire <= cur)
    && (forall t <- rest :: t != null && t.expire > cur)
    && (forall i, j | 0 <= i < j < |popped| :: popped[i].expire <= popped[j].expire)
  }

  /** The callbacks invoked when timers are popped in this order; `live` are the ones that
      have not been cancelled. */
  function Callbacks(popped: Slots, live: set<HeapTimer?>): (called: Slots)
  {
    if popped == [] then []
    else
      var last := popped[|popped| - 1];
      Callbacks(popped[..|popped| - 1], live) + if last in live then [last] else []
  }

  /** In the middle of a tick: what was popped is due, in order, and nothing left is earlier. */
  ghost predicate PoppedSoFar(popped: Slots, rest: Slots, cur: int)
  {
    && NoNull(popped) && NoNull(rest)
    && (forall i | 0 <= i < |popped| :: popped[i].expire <= cur)
    && (forall i, j | 0 <= i < j < |popped| :: popped[i].expire <= popped[j].expire)
    && (forall i, j | 0 <= i < |popped| && 0 <= j < |rest| :: popped[i].expire <= rest[j].expire)
  }

  lemma PopOne(popped: Slots, items: Slots, rest: Slots, cur: int)
    requires PoppedSoFar(popped, items, cur) && IsHeap(items) && items != [] && items[0].expire <= cur
    requires Bag(items) == Bag(rest) + multiset{items[0]}
    ensures PoppedSoFar(popped + [items[0]], rest, cur)
    ensures Bag(popped) + Bag(items) == Bag(popped + [items[0]]) + Bag(rest)
  {
    forall j | 0 <= j < |rest|
      ensures exists k | 0 <= k < |items| :: items[k] == rest[j] && items[0].expire <= items[k].expire
    {
      assert rest[j] in Bag(items);
      var k :| 0 <= k < |items| && items[k] == rest[j];
      RootIsMinimum(items, k);
    }
    assert Bag(popped + [items[0]]) == Bag(popped) + multiset{items[0]};
  }

  lemma StartTick(items: Slots, cur: int)
    requires NoNull(items)
    ensures PoppedSoFar([], items, cur) && Bag(items) == Bag([]) + Bag(items)
  {
  }

  lemma OneOfThem(before: Slots, popped: Slots, items: Slots)
    requires Bag(before) == Bag(popped) + Bag(items) && items != []
    ensures items[0] in before
  {
    assert items[0] in Bag(items) && items[0] in Bag(before);
  }

  lemma NothingLeftDue(popped: Slots, rest: Slots, cur: int)
    requires PoppedSoFar(popped, rest, cur) && IsHeap(rest)
    requires rest != [] ==> rest[0].expire > cur
    ensures TickSplits(Bag(popped) + Bag(rest), popped, Bag(rest), cur)
  {
    forall t | t in Bag(rest)
      ensures t != null && t.expire > cur
    {
      var j :| 0 <= j < |rest| && rest[j] == t;
      RootIsMinimum(rest, j);
    }
  }

  predicate ByExpiry(s: Slots)
    requires NoNull(s)
  {
    forall i, j | 0 <= i < j < |s| :: s[i].expire <= s[j].expire
  }

  /** The callbacks are those of the live timers popped, as often as each was popped. */
  lemma {:induction false} CallbacksCount(popped: Slots, live: set<HeapTimer?>, t: HeapTimer?)
    requires NoNull(popped)
    ensures multiset(Callbacks(popped, live))[t] == if t in live then multiset(popped)[t] else 0
  {
    if popped != [] {
      var n := |popped| - 1;
      CallbacksCount(popped[..n], live, t);
      assert popped == popped[..n] + [popped[n]];
      assert multiset(popped) == multiset(popped[..n]) + multiset{popped[n]};
    }
  }

  lemma {:induction false} CallbacksAscend(popped: Slots, live: set<HeapTimer?>)
    requires NoNull(popped) && ByExpiry(popped)
    ensures NoNull(Callbacks(popped, live)) && ByExpiry(Callbacks(popped, live))
    ensures forall i | 0 <= i < |Callbacks(popped, live)| :: Callbacks(popped, live)[i] in popped
  {
    if popped != [] {
      var n := |popped| - 1;
      CallbacksAscend(popped[..n], live);
      var earlier := Callbacks(popped[..n], live);
      forall i | 0 <= i < |earlier|
        ensures earlier[i].expire <= popped[n].expire && earlier[i] in popped
      {
        var k :| 0 <= k < n && popped[k] == earlier[i];
      }
    }
  }

  /** A tick at time cur calls back exactly the live timers with expire <= cur, each as often
      as it was added, in order of expiry, and keeps exactly the timers with expire > cur. */
  lemma FiresExactlyTheDue(before: multiset<HeapTimer?>, popped: Slots, rest: multiset<HeapTimer?>, cur: int,
                           live: set<HeapTimer?>, t: HeapTimer)
    requires TickSplits(before, popped, rest, cur)
    ensures multiset(Callbacks(popped, live))[t] == if t in live && t.expire <= cur then before[t] else 0
    ensures rest[t] == if t.expire > cur then before[t] else 0
    ensures NoNull(Callbacks(popped, live)) && ByExpiry(Callbacks(popped, live))
  {
    CallbacksCount(popped, live, t);
    CallbacksAscend(popped, live);
    assert before[t] == multiset(popped)[t] + rest[t];
    if t.expire <= cur {
      assert t !in rest;
    } else {
      assert t !in multiset(popped);
    }
  }

  class TimeHeap {
    var data: array<HeapTimer?>
    var capacity: nat
    var curSize: nat
    /** The timers whose callbacks were invoked, in order. */
    ghost var fired: Slots

    ghost function Items(): Slots
      reads this, data
      requires curSize <= data.Length
    {
      data[..curSize]
    }

    ghost predicate Wellformed()
      reads this, data
    {
      && capacity == data.Length && curSize <= capacity
      && NoNull(Items())
    }

    ghost predicate Valid()
      reads this, data
    {
      Wellformed() && IsHeap(Items())
    }

    constructor (cap: nat)
      ensures Valid() && fresh(data) && Items() == [] && fired == [] && capacity == cap
    {
      data := new HeapTimer?[cap](_ => null);
      capacity, curSize := cap, 0;
      fired := [];
    }

    /** The constructor that takes the timers of an array: null stands for its exception. */
    static method FromArray(init: seq<HeapTimer>, cap: nat) returns (h: TimeHeap?)
      ensures h == null <==> cap < |init|
      ensures h != null ==> fresh(h) && fresh(h.data) && h.Valid() && h.capacity == cap
      ensures h != null ==> Bag(h.Items()) == multiset(init) && h.fired == []
    {
      if cap < |init| {
        return null;
      }
      h := new TimeHeap(cap);
      for i := 0 to |init|
        invariant h.data.Length == h.capacity == cap && h.curSize == 0 && fresh(h) && fresh(h.data) && h.fired == []
        invariant forall j | 0 <= j < i :: h.data[j] == init[j]
      {
        h.data[i] := init[i];
      }
      h.curSize := |init|;
      assert h.Items() == init;
      h.Heapify();
    }

    /** The bottom-up loop of that constructor. */
    method Heapify()
      requires Wellformed()
      modifies data
      ensures Valid() && Bag(Items()) == Bag(old(Items()))
    {
      hide Bag;
      if curSize != 0 {
        var i: int := (curSize - 1) / 2;
        while i >= 0
          invariant -1 <= i < curSize && Wellformed() && Ordered(Items(), i + 1, -1)
          invariant Bag(Items()) == Bag(old(Items()))
        {
          PercolateDown(i);
          i := i - 1;
        }
      }
    }

    /** The child of h that expires first; a is what the array stands for. */
    method PickChild(h: nat, ghost a: Slots) returns (child: nat)
      requires h * 2 + 1 < curSize == |a| && curSize <= data.Length && NoNull(a)
      requires forall j | 0 <= j < curSize && j != h :: data[j] == a[j]
      ensures child < curSize && child != h && SmallerChild(a, h, child)
    {
      child := h * 2 + 1;
      assert data[child] == a[child];
      if child < curSize - 1 && data[child + 1].expire < data[child].expire {
        child := child + 1;
      }
    }

    /** The timer at `from` moves into the open place h, and the open place moves there. */
    method MoveInto(h: nat, from: nat, ghost a: Slots)
      requires h < curSize == |a| && from < curSize && h != from && curSize <= data.Length
      requires forall j | 0 <= j < curSize && j != h :: data[j] == a[j]
      modifies data
      ensures forall j | 0 <= j < curSize && j != from :: data[j] == Swap(a, h, from)[j]
      ensures Swap(a, h, from)[from] == a[h] && Swap(a, h, from)[h] == a[from]
    {
      data[h] := data[from];
    }

    /** The timer at `hole` sinks below every smaller timer of its subtree. */
    method PercolateDown(hole: nat)
      requires Wellformed() && hole <= curSize && hole < data.Length && (hole < curSize || curSize == 0)
      requires Ordered(Items(), hole + 1, -1)
      modifies data
      ensures Wellformed() && Ordered(Items(), hole, -1)
      ensures Bag(Items()) == Bag(old(Items()))
    {
      hide Sinking, Ordered, SmallerChild, Bag, Swap;
      ghost var a := Items();
      SinkStarts(a, hole);
      var temp := data[hole];
      var h := hole;
      while h * 2 + 1 <= curSize - 1
        invariant 0 <= h < data.Length && |a| == curSize && NoNull(a)
        invariant (h < curSize && a[h] == temp) || curSize == 0
        invariant forall j | 0 <= j < curSize && j != h :: data[j] == a[j]
        invariant Sinking(a, hole, h)
        invariant Bag(a) == Bag(old(Items()))
      {
        var child := PickChild(h, a);
        if data[child].expire >= temp.expire {
          SinkEndsAbove(a, hole, h, child);
          break;
        }
        MoveInto(h, child, a);
        SinkStep(a, hole, h, child);
        SwapKeepsItems(a, h, child);
        a := Swap(a, h, child);
        h := child;
      }
      if h * 2 + 1 > curSize - 1 {
        SinkEndsAtLeaf(a, hole, h);
      }
      data[h] := temp;
      assert Items() == a;
    }

    method Resize()
      requires Wellformed()
      modifies this`data, `capacity
      ensures Wellformed() && fresh(data) && capacity == 2 * old(capacity) && Items() == old(Items())
    {
      var temp := new HeapTimer?[2 * capacity](_ => null);
      capacity := 2 * capacity;
      for i := 0 to curSize
        invariant data == old(data) && capacity == 2 * old(capacity)
        invariant forall j | 0 <= j < i :: temp[j] == data[j]
      {
        temp[i] := data[i];
      }
      data := temp;
    }

    /** A capacity of 0 never grows: doubling it gains nothing. */
    method AddTimer(timer: HeapTimer?)
      requires Valid() && (timer != null ==> capacity > 0)
      modifies this`data, `capacity, `curSize, data
      ensures Valid() && (data == old(data) || fresh(data))
      ensures Bag(Items()) == Bag(old(Items())) + if timer == null then multiset{} else multiset{timer}
      ensures capacity == old(capacity) || (old(curSize) == old(capacity) && capacity == 2 * old(capacity))
    {
      hide Bag;
      if timer == null {
        return;
      }
      if curSize >= capacity {
        Resize();
      }
      Rise(timer);
    }

    /** The new timer rises from the end past every parent that expires later. */
    method Rise(timer: HeapTimer)
      requires Valid() && curSize < capacity
      modifies `curSize, data
      ensures Valid()
      ensures Bag(Items()) == Bag(old(Items())) + multiset{timer}
    {
      hide Rising, IsHeap, Bag, Ordered, Swap;
      AppendToBag(Items(), timer);
      RiseStarts(Items(), timer);
      ghost var a := Items() + [timer];
      var hole := curSize;
      curSize := curSize + 1;
      while hole > 0
        invariant 0 <= hole < curSize == |a| <= data.Length && NoNull(a)
        invariant a[hole] == timer
        invariant forall j | 0 <= j < curSize && j != hole :: data[j] == a[j]
        invariant Rising(a, hole)
        invariant Bag(a) == Bag(old(Items())) + multiset{timer}
      {
        var parent := (hole - 1) / 2;
        assert data[parent] == a[parent];
        if data[parent].expire <= timer.expire {
          break;
        }
        MoveInto(hole, parent, a);
        RiseStep(a, hole);
        SwapKeepsItems(a, hole, parent);
        a := Swap(a, hole, parent);
        hole := parent;
      }
      RiseEnds(a, hole);
      data[hole] := timer;
      assert Items() == a;
    }

    /** Lazy deletion. */
    method DelTimer(timer: HeapTimer?)
      modifies (if timer == null then {} else {timer})`live
      ensures timer != null ==> !timer.live
    {
      if timer == null {
        return;
      }
      timer.live := false;
    }

    method Top() returns (t: HeapTimer?)
      requires Valid()
      ensures t == null <==> Items() == []
      ensures t != null ==> t == Items()[0] && forall u <- Items() :: t.expire <= u.expire
    {
      if curSize == 0 {
        return null;
      }
      forall u | u in Items()
        ensures Items()[0].expire <= u.expire
      {
        var j :| 0 <= j < |Items()| && Items()[j] == u;
        RootIsMinimum(Items(), j);
      }
      return data[0];
    }

    method Refill()
      requires curSize > 0 && curSize <= data.Length
      modifies `curSize, data
      ensures curSize == old(curSize) - 1 && Items() == Refilled(old(Items()))
    {
      curSize := curSize - 1;
      data[0] := data[curSize];
    }

    method PopTimer()
      requires Valid()
      modifies `curSize, data
      ensures Valid()
      ensures curSize == if old(curSize) == 0 then 0 else old(curSize) - 1
      ensures old(Items()) != [] ==> Bag(old(Items())) == Bag(Items()) + multiset{old(Items()[0])}
    {
      hide Ordered, Bag;
      if curSize == 0 {
        return;
      }
      MoveLastToFront(Items());
      Refill();
      PercolateDown(0);
    }

    /** The timers whose callbacks are still set. */
    ghost function Live(): set<HeapTimer?>
      requires Wellformed()
      reads this, data, Items()
    {
      set t <- Items() | t.live
    }

    /** Pops every timer that has expired at time cur, calling the live ones back. It reads the
        first slot before it asks whether there is one. */
    method Tick(cur: int) returns (ghost popped: Slots)
      requires Valid() && capacity > 0
      modifies `curSize, `fired, data
      ensures Valid()
      ensures TickSplits(Bag(old(Items())), popped, Bag(Items()), cur)
      ensures fired == old(fired) + Callbacks(popped, old(Live()))
    {
      hide IsHeap, Bag, PoppedSoFar, TickSplits;
      popped := [];
      ghost var before, live := Items(), Live();
      StartTick(before, cur);
      var tmp := data[0];
      while curSize != 0
        invariant Valid() && data == old(data) && (curSize != 0 ==> tmp == data[0])
        invariant Bag(before) == Bag(popped) + Bag(Items())
        invariant PoppedSoFar(popped, Items(), cur)
        invariant fired == old(fired) + Callbacks(popped, live)
        decreases curSize
      {
        if tmp == null || tmp.expire > cur {
          break;
        }
        ghost var items := Items();
        assert items[0] == data[0];
        OneOfThem(before, popped, items);
        if data[0].live {
          fired := fired + [data[0]];
        }
        PopTimer();
        PopOne(popped, items, Items(), cur);
        popped := popped + [items[0]];
        tmp := data[0];
      }
      NothingLeftDue(popped, Items(), cur);
    }
  }
}
