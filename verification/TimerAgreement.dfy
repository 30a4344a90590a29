/** Lazy and eager cancellation side by side: one script of operations on the timer heap of
    11/11-6time_heap.h and on the sorted list of 11/11-2lst_timer.h. */
module TimerAgreement {
  import TimeHeap
  import SortedTimerList
  import opened Sequences

  type HTimer = TimeHeap.HeapTimer
  type LTimer = SortedTimerList.UtilTimer

  // ---------- what both are for: a bag of deadlines ----------

  /** Timers are named by the order in which they were added. */
  datatype Op = Add(expire: int) | Cancel(id: nat) | Tick(cur: int)

  function Due(pending: map<nat, int>, cur: int): set<nat>
  {
    set id <- pending | pending[id] <= cur
  }

  function Later(pending: map<nat, int>, cur: int): map<nat, int>
  {
    map id <- pending | pending[id] > cur :: pending[id]
  }

  /** The pending deadlines after one operation, with n timers added before it. */
  function Step(pending: map<nat, int>, n: nat, op: Op): map<nat, int>
  {
    match op
    case Add(expire) => pending[n := expire]
    case Cancel(id) => pending - {id}
    case Tick(cur) => Later(pending, cur)
  }

  function Count(n: nat, op: Op): nat
  {
    if op.Add? then n + 1 else n
  }

  /** Only live timers are cancelled. */
  predicate Legal(pending: map<nat, int>, n: nat, script: seq<Op>)
    decreases |script|
  {
    script != [] ==>
      && (script[0].Cancel? ==> script[0].id in pending)
      && Legal(Step(pending, n, script[0]), Count(n, script[0]), script[1..])
  }

  /** The timers each tick of a script fires. */
  function Firings(pending: map<nat, int>, n: nat, script: seq<Op>): seq<set<nat>>
    decreases |script|
  {
    if script == [] then []
    else
      var rest := Firings(Step(pending, n, script[0]), Count(n, script[0]), script[1..]);
      if script[0].Tick? then [Due(pending, script[0].cur)] + rest else rest
  }

  /** The timers called back are, once each, the ones with these names. */
  ghost predicate Calls<T>(called: seq<T>, objs: seq<T>, ids: set<nat>)
  {
    && Distinct(called)
    && (forall id <- ids :: id < |objs| && objs[id] in called)
    && (forall t <- called :: exists id <- ids :: id < |objs| && objs[id] == t)
  }

  /** Tick by tick, the callbacks are those of the timers named. */
  ghost predicate LogOf<T>(log: seq<seq<T>>, objs: seq<T>, firings: seq<set<nat>>)
  {
    |log| == |firings| && forall i | 0 <= i < |log| :: Calls(log[i], objs, firings[i])
  }

  lemma EmptyLog<T>(objs: seq<T>)
    ensures LogOf([], objs, []) && Join<T>([]) == []
  {
  }

  lemma LogGrows<T>(called: seq<T>, ids: set<nat>, log: seq<seq<T>>, objs: seq<T>, more: seq<T>, firings: seq<set<nat>>)
    requires Calls(called, objs, ids) && objs <= more && LogOf(log, more, firings)
    ensures LogOf([called] + log, more, [ids] + firings) && Join([called] + log) == called + Join(log)
  {
  }

  /** The callbacks are those of the named timers and of no others, one for each. */
  lemma CallsExactly<T>(called: seq<T>, objs: seq<T>, ids: set<nat>, id: nat)
    requires Calls(called, objs, ids) && Distinct(objs) && id < |objs|
    ensures multiset(called)[objs[id]] == if id in ids then 1 else 0
    ensures |called| == |ids|
  {
    if objs[id] in called {
      OnceOnly(called, objs[id]);
    }
    SameNumber(called, objs, ids);
  }

  lemma OnceOnly<T>(s: seq<T>, t: T)
    requires Distinct(s) && t in s
    ensures multiset(s)[t] == 1
  {
    var i :| 0 <= i < |s| && s[i] == t;
    assert s == s[..i] + [t] + s[i + 1..];
    assert t !in s[..i] && t !in s[i + 1..];
  }

  lemma {:induction false} SameNumber<T>(called: seq<T>, objs: seq<T>, ids: set<nat>)
    requires Calls(called, objs, ids) && Distinct(objs)
    ensures |called| == |ids|
    decreases |called|
  {
    if called == [] {
      assert ids == {};
    } else {
      var n := |called| - 1;
      var last, init := called[n], called[..n];
      assert last in called;
      var id :| id in ids && id < |objs| && objs[id] == last;
      assert called == init + [last];
      forall k | k in ids - {id}
        ensures k < |objs| && objs[k] in init
      {
      }
      forall t | t in init
        ensures exists k <- ids - {id} :: k < |objs| && objs[k] == t
      {
        assert t in called;
        var k :| k in ids && k < |objs| && objs[k] == t;
        assert k in ids - {id};
      }
      SameNumber(init, objs, ids - {id});
    }
  }

  /** Adds and ticks may come in any order, and so may the cancellation of a pending timer. */
  lemma {:induction false} LegalScripts(pending: map<nat, int>, n: nat, script: seq<Op>)
    requires forall op <- script :: !op.Cancel?
    ensures Legal(pending, n, script)
    ensures forall id <- pending :: Legal(pending - {id}, n, script) ==> Legal(pending, n, [Cancel(id)] + script)
    decreases |script|
  {
    if script != [] {
      assert script[0] in script;
      assert forall op <- script[1..] :: op in script;
      LegalScripts(Step(pending, n, script[0]), Count(n, script[0]), script[1..]);
    }
    forall id | id in pending && Legal(pending - {id}, n, script)
      ensures Legal(pending, n, [Cancel(id)] + script)
    {
      assert ([Cancel(id)] + script)[1..] == script;
    }
  }

  /** The times of the ticks of a script. */
  function Times(script: seq<Op>): seq<int>
  {
    if script == [] then []
    else if script[0].Tick? then [script[0].cur] + Times(script[1..])
    else Times(script[1..])
  }

  /** One entry for each tick; a timer that is not pending, and not added again, is in none. */
  lemma {:induction false} NeverAgain(pending: map<nat, int>, n: nat, script: seq<Op>, id: nat)
    ensures |Firings(pending, n, script)| == |Times(script)|
    ensures id !in pending && id < n ==> forall i | 0 <= i < |Times(script)| :: id !in Firings(pending, n, script)[i]
    decreases |script|
  {
    if script != [] {
      NeverAgain(Step(pending, n, script[0]), Count(n, script[0]), script[1..], id);
    }
  }

  /** A pending timer that is not cancelled fires at the first tick that reaches its deadline,
      and at no other. */
  lemma {:induction false} FiresAtDeadline(pending: map<nat, int>, n: nat, script: seq<Op>, id: nat)
    requires id in pending && id < n && Cancel(id) !in script
    ensures |Firings(pending, n, script)| == |Times(script)|
    ensures forall i | 0 <= i < |Times(script)| ::
      id in Firings(pending, n, script)[i] <==>
        pending[id] <= Times(script)[i] && forall j | 0 <= j < i :: Times(script)[j] < pending[id]
    decreases |script|
  {
    NeverAgain(pending, n, script, id);
    if script != [] {
      var rest, next, m := script[1..], Step(pending, n, script[0]), Count(n, script[0]);
      assert script[0] in script && Cancel(id) !in rest;
      NeverAgain(next, m, rest, id);
      if id in next {
        FiresAtDeadline(next, m, rest, id);
      }
      if script[0].Tick? {
        forall i | 0 < i < |Times(script)|
          ensures id in Firings(pending, n, script)[i] <==>
            pending[id] <= Times(script)[i] && forall j | 0 <= j < i :: Times(script)[j] < pending[id]
        {
          ShiftedByOne(Times(rest), Times(script), pending[id], i);
        }
      }
    }
  }

  /** Whether e was reached before position i, behind one time more. */
  lemma ShiftedByOne(rest: seq<int>, all: seq<int>, e: int, i: int)
    requires all != [] && rest == all[1..] && 0 < i < |all|
    ensures all[i] == rest[i - 1]
    ensures (forall j | 0 <= j < i :: all[j] < e) <==> (all[0] < e && forall j | 0 <= j < i - 1 :: rest[j] < e)
  {
    assert forall j | 0 < j < i :: all[j] == rest[j - 1];
    assert forall j | 0 <= j < i - 1 :: rest[j] == all[j + 1];
  }

  // ---------- the heap ----------

  type Heaped = multiset<TimeHeap.HeapTimer?>

  /** The heap's entries are timers of hs, once each; the live ones are those pending. */
  ghost predicate HeapShows(hs: seq<HTimer>, bag: Heaped, live: set<TimeHeap.HeapTimer?>, pending: map<nat, int>)
  {
    && Distinct(hs)
    && (forall t <- live :: t in bag)
    && (forall t <- bag :: t in hs && bag[t] == 1)
    && (forall k | 0 <= k < |hs| :: k in pending <==> hs[k] in live)
    && (forall k <- pending :: k < |hs| && pending[k] == hs[k].expire)
  }

  lemma CountTwo<T>(s: seq<T>, i: nat, j: nat)
    requires i < j < |s|
    ensures multiset(s)[s[i]] >= if s[i] == s[j] then 2 else 1
  {
    assert s == s[..i] + [s[i]] + s[i + 1..j] + [s[j]] + s[j + 1..];
  }

  lemma OnceEach<T>(s: seq<T>)
    requires forall t <- s :: multiset(s)[t] == 1
    ensures Distinct(s)
  {
    forall i, j | 0 <= i < j < |s|
      ensures s[i] != s[j]
    {
      CountTwo(s, i, j);
      assert s[i] in s;
    }
  }

  lemma HeapTicks(hs: seq<HTimer>, before: Heaped, popped: TimeHeap.Slots, rest: Heaped, live: set<TimeHeap.HeapTimer?>,
                  left: set<TimeHeap.HeapTimer?>, pending: map<nat, int>, cur: int)
    requires HeapShows(hs, before, live, pending) && TimeHeap.TickSplits(before, popped, rest, cur)
    requires forall t :: t in left <==> t in live && t in rest
    ensures Calls(TimeHeap.Callbacks(popped, live), hs, Due(pending, cur))
    ensures HeapShows(hs, rest, left, Later(pending, cur))
  {
    hide *;
    var called := TimeHeap.Callbacks(popped, live);
    forall t: HTimer | true
      ensures multiset(called)[t] == if t in live && t.expire <= cur then before[t] else 0
      ensures rest[t] == if t.expire > cur then before[t] else 0
    {
      TimeHeap.FiresExactlyTheDue(before, popped, rest, cur, live, t);
    }
    NoneNull(before, popped, rest, cur, live);
    HeapCalls(hs, before, called, live, pending, cur);
    HeapKeeps(hs, before, rest, live, left, pending, cur);
  }

  lemma NoneNull(before: Heaped, popped: TimeHeap.Slots, rest: Heaped, cur: int, live: set<TimeHeap.HeapTimer?>)
    requires TimeHeap.TickSplits(before, popped, rest, cur)
    ensures null !in TimeHeap.Callbacks(popped, live) && null !in rest
  {
    TimeHeap.CallbacksCount(popped, live, null);
    assert null !in multiset(popped);
  }

  lemma HeapCalls(hs: seq<HTimer>, before: Heaped, called: TimeHeap.Slots, live: set<TimeHeap.HeapTimer?>,
                  pending: map<nat, int>, cur: int)
    requires HeapShows(hs, before, live, pending) && null !in called
    requires forall t: HTimer :: multiset(called)[t] == if t in live && t.expire <= cur then before[t] else 0
    ensures Calls(called, hs, Due(pending, cur))
  {
    forall t | t in called
      ensures t != null && t in live && t.expire <= cur && multiset(called)[t] == 1
    {
      assert multiset(called)[t] > 0;
    }
    OnceEach(called);
    hide Distinct;
    forall id | id in Due(pending, cur)
      ensures id < |hs| && hs[id] in called
    {
      assert multiset(called)[hs[id]] > 0;
    }
  }

  lemma HeapKeeps(hs: seq<HTimer>, before: Heaped, rest: Heaped, live: set<TimeHeap.HeapTimer?>,
                  left: set<TimeHeap.HeapTimer?>, pending: map<nat, int>, cur: int)
    requires HeapShows(hs, before, live, pending) && null !in rest
    requires forall t :: t in left <==> t in live && t in rest
    requires forall t: HTimer :: rest[t] == if t.expire > cur then before[t] else 0
    ensures HeapShows(hs, rest, left, Later(pending, cur))
  {
    hide Distinct;
    forall t | t in rest
      ensures t != null && t in hs && rest[t] == 1
    {
      assert rest[t] > 0;
      assert t in before;
    }
    forall k | 0 <= k < |hs|
      ensures k in Later(pending, cur) <==> hs[k] in left
    {
    }
  }

  // ---------- the list ----------

  /** The list's nodes are timers of ls, once each: those pending. */
  ghost predicate ListShows(ls: seq<LTimer>, nodes: seq<LTimer>, pending: map<nat, int>)
    reads ls`expire
  {
    && Distinct(ls) && Distinct(nodes)
    && (forall t <- nodes :: t in ls)
    && (forall k | 0 <= k < |ls| :: k in pending <==> ls[k] in nodes)
    && (forall k <- pending :: k < |ls| && pending[k] == ls[k].expire)
  }

  /** The due timers are the first n nodes. */
  lemma DueNodes(nodes: seq<LTimer>, n: nat, cur: int)
    requires n <= |nodes| && forall i | 0 <= i < |nodes| :: nodes[i].expire <= cur <==> i < n
    ensures forall t <- nodes :: t in nodes[..n] <==> t.expire <= cur
    ensures forall t <- nodes :: t in nodes[n..] <==> t.expire > cur
  {
    forall t | t in nodes
      ensures t in nodes[..n] <==> t.expire <= cur
      ensures t in nodes[n..] <==> t.expire > cur
    {
      var i :| 0 <= i < |nodes| && nodes[i] == t;
      if i < n {
        assert nodes[..n][i] == t;
      } else {
        assert nodes[n..][i - n] == t;
      }
    }
  }

  lemma ListTicks(ls: seq<LTimer>, nodes: seq<LTimer>, n: nat, pending: map<nat, int>, cur: int)
    requires ListShows(ls, nodes, pending)
    requires n <= |nodes| && forall i | 0 <= i < |nodes| :: nodes[i].expire <= cur <==> i < n
    ensures Calls(nodes[..n], ls, Due(pending, cur))
    ensures ListShows(ls, nodes[n..], Later(pending, cur))
  {
    var called, rest := nodes[..n], nodes[n..];
    DueNodes(nodes, n, cur);
    assert Distinct(called) && Distinct(rest);
    assert forall t <- called :: t in nodes;
    assert forall t <- rest :: t in nodes;
    hide Distinct;
    forall t | t in called
      ensures exists id <- Due(pending, cur) :: id < |ls| && ls[id] == t
    {
      var id :| 0 <= id < |ls| && ls[id] == t;
      assert id in Due(pending, cur);
    }
  }

  lemma DueAreFirst(nodes: seq<LTimer>, cur: int)
    requires SortedTimerList.Ascending(SortedTimerList.Expires(nodes))
    ensures var n := SortedTimerList.Slot(SortedTimerList.Expires(nodes), cur);
            n <= |nodes| && forall i | 0 <= i < |nodes| :: nodes[i].expire <= cur <==> i < n
  {
    hide SortedTimerList.Expires, SortedTimerList.Slot;
  }

  lemma ListCancels(ls: seq<LTimer>, nodes: seq<LTimer>, id: nat, i: nat, pending: map<nat, int>)
    requires ListShows(ls, nodes, pending) && id in pending && i < |nodes| && nodes[i] == ls[id]
    ensures ListShows(ls, RemoveAt(nodes, i), pending - {id})
  {
    var r := RemoveAt(nodes, i);
    hide RemoveAt;
    forall t | t in nodes && t != nodes[i]
      ensures t in r
    {
      var j :| 0 <= j < |nodes| && nodes[j] == t;
      assert r[if j < i then j else j - 1] == t;
    }
    assert Distinct(r) && nodes[i] !in r;
  }

  lemma ListAdds(ls: seq<LTimer>, nodes: seq<LTimer>, k: nat, timer: LTimer, pending: map<nat, int>)
    requires ListShows(ls, nodes, pending) && timer !in ls && k <= |nodes|
    ensures ListShows(ls + [timer], InsertAt(nodes, k, timer), pending[|ls| := timer.expire])
  {
    var r := InsertAt(nodes, k, timer);
    hide InsertAt;
    forall t | t in nodes
      ensures t in r
    {
      var j :| 0 <= j < |nodes| && nodes[j] == t;
      assert r[if j < k then j else j + 1] == t;
    }
    assert Distinct(r) && timer in r;
    assert forall t :: t in r ==> t in nodes || t == timer;
  }

  lemma HeapCancels(hs: seq<HTimer>, bag: Heaped, live: set<TimeHeap.HeapTimer?>, id: nat, pending: map<nat, int>)
    requires HeapShows(hs, bag, live, pending) && id in pending
    ensures HeapShows(hs, bag, live - {hs[id]}, pending - {id})
  {
  }

  lemma HeapAdds(hs: seq<HTimer>, bag: Heaped, live: set<TimeHeap.HeapTimer?>, timer: HTimer, pending: map<nat, int>)
    requires HeapShows(hs, bag, live, pending) && timer !in hs
    ensures HeapShows(hs + [timer], bag + multiset{timer}, live + {timer}, pending[|hs| := timer.expire])
  {
    var all := hs + [timer];
    assert forall t :: t in all <==> t in hs || t == timer;
    assert Distinct(all);
    hide Distinct;
  }

  // ---------- both at once ----------

  ghost function LiveOf(hs: seq<HTimer>, bag: Heaped): set<TimeHeap.HeapTimer?>
    reads hs
  {
    set t <- hs | t.live && t in bag
  }

  /** One script drives a heap and a list; timer k of the script is hs[k] in the heap and
      ls[k] in the list. */
  class Twins {
    const heap: TimeHeap.TimeHeap
    const list: SortedTimerList.SortTimerList
    var hs: seq<HTimer>
    var ls: seq<LTimer>
    ghost var pending: map<nat, int>

    ghost predicate Shows(expected: map<nat, int>)
      reads `hs, heap, heap.data, hs
      requires heap.Valid()
    {
      var bag := TimeHeap.Bag(heap.Items());
      HeapShows(hs, bag, LiveOf(hs, bag), expected)
    }

    ghost predicate HeapSide()
      reads this, heap, heap.data, hs
    {
      heap.Valid() && heap.capacity > 0 && Shows(pending)
    }

    ghost predicate ListSide()
      reads this, list, list.nodes, ls
    {
      list.Valid() && ListShows(ls, list.nodes, pending)
    }

    ghost predicate Valid()
      reads this, heap, heap.data, list, list.nodes, hs, ls
    {
      |hs| == |ls| && HeapSide() && ListSide()
    }

    constructor ()
      ensures Valid() && hs == [] && pending == map[]
      ensures fresh(heap) && fresh(heap.data) && fresh(list)
    {
      heap := new TimeHeap.TimeHeap(1);
      list := new SortedTimerList.SortTimerList();
      hs, ls, pending := [], [], map[];
    }

    method Add(expire: int)
      requires Valid()
      modifies this, heap`data, heap`capacity, heap`curSize, heap.data
      modifies list`head, list`tail, list`nodes, ls`prev, ls`next
      ensures Valid() && (heap.data == old(heap.data) || fresh(heap.data))
      ensures old(hs) <= hs && |hs| == |old(hs)| + 1 && fresh(hs[|old(hs)|])
      ensures old(ls) <= ls && |ls| == |old(ls)| + 1 && fresh(ls[|old(ls)|])
      ensures pending == old(pending)[|old(hs)| := expire]
    {
      hide HeapShows, ListShows, TimeHeap.TimeHeap.Valid, SortedTimerList.SortTimerList.Valid, Shows, TimeHeap.Bag;
      AddToHeap(expire);
      AddToList(expire);
      pending := pending[|ls| - 1 := expire];
    }

    method AddToHeap(expire: int)
      requires HeapSide()
      modifies `hs, heap`data, heap`capacity, heap`curSize, heap.data
      ensures heap.data == old(heap.data) || fresh(heap.data)
      ensures old(hs) <= hs && |hs| == |old(hs)| + 1 && fresh(hs[|old(hs)|])
      ensures heap.Valid() && heap.capacity > 0 && Shows(pending[|old(hs)| := expire])
    {
      hide TimeHeap.IsHeap, TimeHeap.Bag, HeapShows;
      ghost var bag := TimeHeap.Bag(heap.Items());
      ghost var live := LiveOf(hs, bag);
      var timer := new TimeHeap.HeapTimer(expire);
      HeapAdds(hs, bag, live, timer, pending);
      heap.AddTimer(timer);
      hs := hs + [timer];
      assert LiveOf(hs, bag + multiset{timer}) == live + {timer};
    }

    /** The nodes are among the timers a frame names. */
    lemma Covered()
      requires ListSide()
      ensures forall i | 0 <= i < |list.nodes| :: exists j :: 0 <= j < |ls| && ls[j] == list.nodes[i]
    {
      assert forall i | 0 <= i < |list.nodes| :: list.nodes[i] in list.nodes;
    }

    method AddToList(expire: int)
      requires ListSide()
      modifies `ls, list`head, list`tail, list`nodes, ls`prev, ls`next
      ensures old(ls) <= ls && |ls| == |old(ls)| + 1 && fresh(ls[|old(ls)|])
      ensures list.Valid() && ListShows(ls, list.nodes, pending[|old(ls)| := expire])
    {
      hide SortedTimerList.Slot, SortedTimerList.Expires, SortedTimerList.Linked, SortedTimerList.Ascending;
      hide InsertAt, ListShows;
      var timer := new SortedTimerList.UtilTimer(expire);
      ghost var k := SortedTimerList.Slot(SortedTimerList.Expires(list.nodes), expire);
      ghost var inserted := InsertAt(list.nodes, k, timer);
      ghost var all, now := ls + [timer], pending[|ls| := expire];
      ListAdds(ls, list.nodes, k, timer, pending);
      assert ListShows(all, inserted, now);
      Covered();
      list.AddTimer(timer);
      assert list.nodes == inserted;
      assert ListShows(all, inserted, now);
      ls := ls + [timer];
    }

    method Cancel(id: nat)
      requires Valid() && id in pending
      modifies `pending, hs`live, list`head, list`tail, list`nodes, ls`prev, ls`next
      ensures Valid() && pending == old(pending) - {id}
    {
      hide HeapShows, ListShows, TimeHeap.TimeHeap.Valid, SortedTimerList.SortTimerList.Valid, Shows, TimeHeap.Bag;
      Named(id);
      CancelInHeap(id);
      CancelInList(id);
      pending := pending - {id};
    }

    lemma Named(id: nat)
      requires ListSide() && id in pending
      ensures id < |ls|
    {
    }

    method CancelInHeap(id: nat)
      requires HeapSide() && id in pending
      requires id < |hs|
      modifies hs`live
      ensures heap.Valid() && heap.capacity > 0 && Shows(pending - {id})
    {
      hide TimeHeap.IsHeap, TimeHeap.Bag, HeapShows;
      ghost var bag := TimeHeap.Bag(heap.Items());
      ghost var live := LiveOf(hs, bag);
      HeapCancels(hs, bag, live, id, pending);
      heap.DelTimer(hs[id]);
      assert LiveOf(hs, bag) == live - {hs[id]};
    }

    method CancelInList(id: nat)
      requires ListSide() && id in pending
      requires id < |ls|
      modifies list`head, list`tail, list`nodes, ls`prev, ls`next
      ensures list.Valid() && ListShows(ls, list.nodes, pending - {id})
    {
      hide SortedTimerList.Expires, SortedTimerList.Linked, SortedTimerList.Ascending, RemoveAt, ListShows;
      Covered();
      ghost var i := Position(id);
      ListCancels(ls, list.nodes, id, i, pending);
      ghost var left := RemoveAt(list.nodes, i);
      list.DelTimer(ls[id], i);
      assert ListShows(ls, left, pending - {id});
    }

    lemma Position(id: nat) returns (i: nat)
      requires ListSide() && id in pending && id < |ls|
      ensures i < |list.nodes| && list.nodes[i] == ls[id]
    {
      assert ls[id] in list.nodes;
      i :| 0 <= i < |list.nodes| && list.nodes[i] == ls[id];
    }

    /** Both fire the timers due, once each. */
    method Tick(cur: int) returns (ghost hcalls: seq<TimeHeap.HeapTimer?>, ghost lcalls: seq<LTimer>)
      requires Valid()
      modifies `pending, heap`curSize, heap`fired, heap.data
      modifies list`head, list`nodes, list`fired, ls`prev
      ensures Valid() && pending == Later(old(pending), cur)
      ensures heap.fired == old(heap.fired) + hcalls && Calls(hcalls, hs, Due(old(pending), cur))
      ensures list.fired == old(list.fired) + lcalls && Calls(lcalls, ls, Due(old(pending), cur))
    {
      hide HeapShows, ListShows, TimeHeap.TimeHeap.Valid, SortedTimerList.SortTimerList.Valid, Shows;
      hide TimeHeap.Bag, Calls;
      hcalls := TickHeap(cur);
      lcalls := TickList(cur);
      pending := Later(pending, cur);
    }

    method TickHeap(cur: int) returns (ghost called: seq<TimeHeap.HeapTimer?>)
      requires HeapSide()
      modifies heap`curSize, heap`fired, heap.data
      ensures heap.Valid() && heap.capacity > 0 && Shows(Later(pending, cur))
      ensures heap.fired == old(heap.fired) + called && Calls(called, hs, Due(pending, cur))
    {
      hide TimeHeap.IsHeap, TimeHeap.Bag, HeapShows, TimeHeap.TickSplits, TimeHeap.Callbacks, Calls;
      ghost var before := TimeHeap.Bag(heap.Items());
      ghost var live := LiveOf(hs, before);
      SameLive();
      ghost var popped := heap.Tick(cur);
      called := TimeHeap.Callbacks(popped, live);
      ghost var rest := TimeHeap.Bag(heap.Items());
      Shrinks(before, popped, rest, cur);
      HeapTicks(hs, before, popped, rest, live, LiveOf(hs, rest), pending, cur);
    }

    lemma SameLive()
      requires HeapSide()
      ensures heap.Live() == LiveOf(hs, TimeHeap.Bag(heap.Items()))
    {
      forall t | t in heap.Items()
        ensures t in hs
      {
        assert t in multiset(heap.Items());
      }
    }

    lemma Shrinks(before: Heaped, popped: TimeHeap.Slots, rest: Heaped, cur: int)
      requires TimeHeap.TickSplits(before, popped, rest, cur)
      ensures forall t <- rest :: t in before
    {
    }

    method TickList(cur: int) returns (ghost called: seq<LTimer>)
      requires ListSide()
      modifies list`head, list`nodes, list`fired, ls`prev
      ensures list.Valid() && ListShows(ls, list.nodes, Later(pending, cur))
      ensures list.fired == old(list.fired) + called && Calls(called, ls, Due(pending, cur))
    {
      hide SortedTimerList.Expires, SortedTimerList.Linked, SortedTimerList.Ascending, SortedTimerList.Slot;
      hide ListShows, Calls;
      Covered();
      ghost var nodes, n := list.nodes, SortedTimerList.Slot(SortedTimerList.Expires(list.nodes), cur);
      DueAreFirst(nodes, cur);
      ListTicks(ls, nodes, n, pending, cur);
      called := nodes[..n];
      ghost var left := nodes[n..];
      list.Tick(cur);
      assert ListShows(ls, left, Later(pending, cur));
    }

    /** Any script of adds, cancellations of live timers and ticks: heap and list fire the
        same timers at every tick, those the bag of deadlines fires. */
    method Play(script: seq<Op>) returns (ghost hlog: seq<seq<TimeHeap.HeapTimer?>>, ghost llog: seq<seq<LTimer>>)
      requires Valid() && Legal(pending, |hs|, script)
      modifies this, heap`data, heap`capacity, heap`curSize, heap`fired, heap.data, hs`live
      modifies list`head, list`tail, list`nodes, list`fired, ls`prev, ls`next
      ensures Valid() && old(hs) <= hs && old(ls) <= ls
      ensures heap.fired == old(heap.fired) + Join(hlog) && LogOf(hlog, hs, Firings(old(pending), |old(hs)|, script))
      ensures list.fired == old(list.fired) + Join(llog) && LogOf(llog, ls, Firings(old(pending), |old(hs)|, script))
      decreases |script|
    {
      hide Valid, LogOf, Calls, Due, Later, Join;
      if script == [] {
        EmptyLog<TimeHeap.HeapTimer?>(hs);
        EmptyLog(ls);
        return [], [];
      }
      match script[0] {
        case Add(expire) =>
          Add(expire);
          hlog, llog := Play(script[1..]);
        case Cancel(id) =>
          Cancel(id);
          hlog, llog := Play(script[1..]);
        case Tick(cur) =>
          ghost var due, h, l := Due(pending, cur), hs, ls;
          ghost var later := Firings(Later(pending, cur), |hs|, script[1..]);
          ghost var hcalls, lcalls := Tick(cur);
          hlog, llog := Play(script[1..]);
          LogGrows<TimeHeap.HeapTimer?>(hcalls, due, hlog, h, hs, later);
          LogGrows(lcalls, due, llog, l, ls, later);
          hlog, llog := [hcalls] + hlog, [lcalls] + llog;
      }
    }
  }
}
