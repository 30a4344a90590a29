/** The parent of 15/15-1processpool.h: it hands connections to its children in turn,
    skipping the children that have exited. */
module RoundRobin {

  import opened Cyclic

  datatype Choice = Nobody | Child(i: nat)

  /** The do-while scan: look at slot i and at most `tries` slots in all. */
  function Scan(live: seq<bool>, i: nat, tries: nat): (r: Choice)
    requires i < |live|
    ensures r.Child? ==> r.i < |live| && live[r.i]
    decreases tries
  {
    if tries == 0 then Nobody
    else if live[i] then Child(i)
    else Scan(live, Succ(i, |live|), tries - 1)
  }

  /** The child the next connection goes to. */
  function NextChild(live: seq<bool>, counter: nat): (r: Choice)
    requires counter < |live|
    ensures r.Child? ==> r.i < |live| && live[r.i]
  {
    Scan(live, counter, |live|)
  }

  /** i is the live slot the cyclic order from c meets first. */
  predicate FirstLive(live: seq<bool>, c: nat, i: nat)
    requires c < |live|
  {
    && i < |live| && live[i]
    && forall j | 0 <= j < |live| && live[j] :: Distance(c, i, |live|) <= Distance(c, j, |live|)
  }

  lemma {:induction false} ScanPassesDead(live: seq<bool>, c: nat, i: nat, tries: nat)
    requires c < |live| && i < |live| && Distance(c, i, |live|) + tries == |live|
    requires forall j | 0 <= j < |live| && live[j] :: Distance(c, i, |live|) <= Distance(c, j, |live|)
    ensures var r := Scan(live, i, tries);
            if r.Child? then FirstLive(live, c, r.i) else forall j | 0 <= j < |live| :: !live[j]
    decreases tries
  {
    var n := |live|;
    if !live[i] {
      forall j | 0 <= j < n && live[j]
        ensures Distance(c, j, n) > Distance(c, i, n)
      {
        DistanceInjective(c, i, j, n);
      }
      if tries > 1 {
        ScanPassesDead(live, c, Succ(i, n), tries - 1);
      }
    }
  }

  /** The scan finds the first live child in cyclic order, and nobody only when all are dead. */
  lemma NextChildIsFirstLive(live: seq<bool>, c: nat)
    requires c < |live|
    ensures match NextChild(live, c)
            case Nobody => forall j | 0 <= j < |live| :: !live[j]
            case Child(i) => FirstLive(live, c, i)
  {
    ScanPassesDead(live, c, c, |live|);
  }

  // ---------- runs of the parent ----------

  datatype Event = Connection | Exit(i: nat)

  datatype State = State(live: seq<bool>, counter: nat)
  {
    predicate Valid() { counter < |live| }

    function Step(e: Event): (s: State)
      requires Valid()
      ensures s.Valid() && |s.live| == |live|
    {
      match e
      case Connection =>
        var choice := NextChild(live, counter);
        if choice.Child? then State(live, Succ(choice.i, |live|)) else this
      case Exit(i) => if i < |live| then State(live[i := false], counter) else this
    }

    function Run(events: seq<Event>): (s: State)
      requires Valid()
      ensures s.Valid() && |s.live| == |live|
      decreases |events|
    {
      if events == [] then this else Step(events[0]).Run(events[1..])
    }

    /** How many of the connections in the run went to child i. */
    function Served(events: seq<Event>, i: nat): nat
      requires Valid()
      decreases |events|
    {
      if events == [] then 0
      else
        (if events[0] == Connection && NextChild(live, counter) == Child(i) then 1 else 0)
        + Step(events[0]).Served(events[1..], i)
    }

    /** 1 when j's turn comes before i's. */
    function Behind(i: nat, j: nat): int
      requires Valid() && i < |live| && j < |live|
    {
      if Distance(counter, i, |live|) > Distance(counter, j, |live|) then 1 else 0
    }
  }

  /** Served counts the connections that the child is given: in a run of one event, 1 for a
      connection when it is the first live child from the counter on, and 0 otherwise. */
  lemma ServedOnce(s: State, e: Event, i: nat)
    requires s.Valid() && i < |s.live|
    ensures s.Served([], i) == 0
    ensures s.Served([e], i) == if e == Connection && FirstLive(s.live, s.counter, i) then 1 else 0
  {
    NextChildIsFirstLive(s.live, s.counter);
    assert [e][1..] == [];
    if FirstLive(s.live, s.counter, i) && NextChild(s.live, s.counter).Child? {
      var k := NextChild(s.live, s.counter).i;
      if k != i {
        DistanceInjective(s.counter, i, k, |s.live|);
      }
    }
  }

  /** Dead children stay dead. */
  lemma {:induction false} StaysDead(s: State, events: seq<Event>, i: nat)
    requires s.Valid() && i < |s.live| && !s.live[i]
    ensures !s.Run(events).live[i]
    decreases |events|
  {
    if events != [] {
      StaysDead(s.Step(events[0]), events[1..], i);
    }
  }

  /** A connection moves every other live child one turn forward and its own child to the end. */
  lemma ServingMovesToEnd(s: State, i: nat, j: nat)
    requires s.Valid() && i < |s.live| && j < |s.live| && i != j && s.live[i] && s.live[j]
    ensures var choice := NextChild(s.live, s.counter);
            var s' := s.Step(Connection);
            s'.Behind(i, j) - s.Behind(i, j) ==
            (if choice == Child(i) then 1 else 0) - (if choice == Child(j) then 1 else 0)
  {
    var n := |s.live|;
    NextChildIsFirstLive(s.live, s.counter);
    var k := NextChild(s.live, s.counter).i;
    ShiftPast(s.counter, k, i, n);
    ShiftPast(s.counter, k, j, n);
  }

  lemma ShiftPast(c: nat, k: nat, i: nat, n: nat)
    requires c < n && k < n && i < n && Distance(c, k, n) <= Distance(c, i, n)
    ensures Distance(Succ(k, n), i, n) ==
            if i == k then n - 1 else Distance(c, i, n) - Distance(c, k, n) - 1
    ensures i != k ==> Distance(c, k, n) < Distance(c, i, n)
  {
    DistanceStep(k, i, n);
  }

  /** For two children that are alive throughout, who was served more is settled by whose
      turn came first before and after. */
  lemma {:induction false} ServedDifference(s: State, events: seq<Event>, i: nat, j: nat)
    requires s.Valid() && i < |s.live| && j < |s.live| && i != j
    requires s.Run(events).live[i] && s.Run(events).live[j]
    ensures s.Served(events, i) - s.Served(events, j) == s.Run(events).Behind(i, j) - s.Behind(i, j)
    decreases |events|
  {
    if events != [] {
      if !s.live[i] { StaysDead(s, events, i); }
      if !s.live[j] { StaysDead(s, events, j); }
      var s' := s.Step(events[0]);
      ServedDifference(s', events[1..], i, j);
      if events[0] == Connection {
        ServingMovesToEnd(s, i, j);
      }
    }
  }

  /** Children that stay alive are served equally often, give or take one. */
  lemma Balanced(s: State, events: seq<Event>, i: nat, j: nat)
    requires s.Valid() && i < |s.live| && j < |s.live|
    requires s.Run(events).live[i] && s.Run(events).live[j]
    ensures -1 <= s.Served(events, i) - s.Served(events, j) <= 1
  {
    if i != j {
      ServedDifference(s, events, i, j);
    }
  }

  /** s has just served i: i's turn is the last one. */
  predicate JustServed(s: State, i: nat)
    requires s.Valid()
  {
    i < |s.live| && s.counter == Succ(i, |s.live|)
  }

  lemma TurnsBetween(s: State, events: seq<Event>, i: nat, j: nat)
    requires s.Valid() && j < |s.live|
    requires JustServed(s, i) && s.Served(events, i) == 1 && JustServed(s.Run(events), i)
    requires s.Run(events).live[i] && s.Run(events).live[j]
    ensures s.Served(events, j) == 1
  {
    if i != j {
      ServedDifference(s, events, i, j);
      DistanceStep(i, i, |s.live|);
      LastIsBehind(s, i, j);
      LastIsBehind(s.Run(events), i, j);
    }
  }

  lemma LastIsBehind(s: State, i: nat, j: nat)
    requires s.Valid() && JustServed(s, i) && j < |s.live| && i != j
    ensures s.Behind(i, j) == 1
  {
    DistanceStep(i, i, |s.live|);
    DistanceStep(i, j, |s.live|);
  }

  lemma {:induction false} OneMoreEvent(s: State, events: seq<Event>, e: Event, i: nat)
    requires s.Valid()
    ensures s.Run(events + [e]) == s.Run(events).Step(e)
    ensures s.Served(events + [e], i) == s.Served(events, i) + s.Run(events).Served([e], i)
    decreases |events|
  {
    if events == [] {
      assert events + [e] == [e];
      assert [e][1..] == [];
    } else {
      assert (events + [e])[1..] == events[1..] + [e];
      OneMoreEvent(s.Step(events[0]), events[1..], e, i);
    }
  }

  /** Between two consecutive connections given to child i, every other child alive throughout
      is given exactly one, whoever exits in between. */
  lemma OneTurnEach(s: State, events: seq<Event>, i: nat, j: nat)
    requires s.Valid() && NextChild(s.live, s.counter) == Child(i)
    requires var s1 := s.Step(Connection);
             var s2 := s1.Run(events);
             && s1.Served(events, i) == 0 && NextChild(s2.live, s2.counter) == Child(i)
             && j < |s.live| && j != i && s2.live[j]
    ensures s.Step(Connection).Served(events, j) == 1
  {
    var s1 := s.Step(Connection);
    var s2 := s1.Run(events);
    ServingIsJustServed(s, i);
    ServingIsJustServed(s2, i);
    OneMoreEvent(s1, events, Connection, i);
    OneMoreEvent(s1, events, Connection, j);
    assert s2.Served([Connection], i) == 1 && s2.Served([Connection], j) == 0;
    TurnsBetween(s1, events + [Connection], i, j);
  }

  /** The step that serves i leaves i's turn last. */
  lemma ServingIsJustServed(s: State, i: nat)
    requires s.Valid() && NextChild(s.live, s.counter) == Child(i)
    ensures JustServed(s.Step(Connection), i)
  {
  }

  /** The exits of the children in the first n slots whose process ids are among those given. */
  function Exits(pids: seq<int>, exited: seq<int>, n: nat): seq<Event>
    requires n <= |pids|
  {
    if n == 0 then []
    else Exits(pids, exited, n - 1) + if pids[n - 1] in exited then [Exit(n - 1)] else []
  }

  /** Running them marks exactly those children dead. */
  lemma {:induction false} ExitsRun(s: State, pids: seq<int>, exited: seq<int>, n: nat)
    requires s.Valid() && |pids| == |s.live| && n <= |pids|
    ensures var s' := s.Run(Exits(pids, exited, n));
            && s'.counter == s.counter
            && forall i | 0 <= i < |s.live| :: s'.live[i] == (s.live[i] && !(i < n && pids[i] in exited))
  {
    hide State.Run, State.Step, State.Served;
    if n == 0 {
      NoEvents(s);
    } else {
      ExitsRun(s, pids, exited, n - 1);
      var earlier := Exits(pids, exited, n - 1);
      if pids[n - 1] in exited {
        OneMoreEvent(s, earlier, Exit(n - 1), 0);
        ExitStep(s.Run(earlier), n - 1);
      } else {
        assert earlier + [] == earlier;
      }
    }
  }

  lemma NoEvents(s: State)
    requires s.Valid()
    ensures s.Run([]) == s
  {
  }

  lemma ExitStep(s: State, i: nat)
    requires s.Valid() && i < |s.live|
    ensures s.Step(Exit(i)) == State(s.live[i := false], s.counter)
  {
  }

  // ---------- the parent's table ----------

  const DEAD := -1

  class ProcessPool {
    const pids: array<int>
    var counter: nat
    var stop: bool

    constructor (children: seq<int>)
      requires children != [] && forall p <- children :: p > 0
      ensures Valid() && fresh(pids) && pids[..] == children
      ensures Abstract() == State(seq(|children|, i => true), 0) && !stop
    {
      pids := new int[|children|](i requires 0 <= i < |children| => children[i]);
      counter, stop := 0, false;
      new;
      assert forall i | 0 <= i < pids.Length :: pids[i] in children;
      assert Live() == seq(|children|, i => true);
    }

    ghost predicate Valid()
      reads this, pids
    {
      && counter < pids.Length
      && forall i | 0 <= i < pids.Length :: pids[i] == DEAD || pids[i] > 0
    }

    ghost function Live(): (live: seq<bool>)
      reads pids
      ensures |live| == pids.Length && forall i | 0 <= i < |live| :: live[i] <==> pids[i] != DEAD
    {
      seq(pids.Length, i requires 0 <= i < pids.Length reads pids => pids[i] != DEAD)
    }

    ghost function Abstract(): (s: State)
      reads this, pids
      requires Valid()
      ensures s.Valid()
    {
      State(Live(), counter)
    }

    /** A new connection: picks the child that will accept it; with no child left, stops. */
    method Dispatch() returns (child: Choice)
      requires Valid()
      modifies `counter, `stop
      ensures Valid()
      ensures child == NextChild(old(Live()), old(counter))
      ensures Abstract() == old(Abstract()).Step(Connection)
      ensures stop == (old(stop) || forall i | 0 <= i < pids.Length :: pids[i] == DEAD)
    {
      var i := counter;
      ghost var tries := pids.Length;
      NextChildIsFirstLive(Live(), counter);
      while pids[i] == DEAD
        invariant 0 <= i < pids.Length && 1 <= tries <= pids.Length
        invariant Distance(counter, i, pids.Length) + tries == pids.Length
        invariant Scan(Live(), i, tries) == NextChild(Live(), counter)
        decreases tries
      {
        var next := (i + 1) % pids.Length;
        if next == counter {
          break;
        }
        i := next;
        tries := tries - 1;
      }
      if pids[i] == DEAD {
        stop := true;
        return Nobody;
      }
      counter := (i + 1) % pids.Length;
      return Child(i);
    }

    /** The exited children leave the rotation. */
    method MarkDead(exited: seq<int>)
      requires Valid()
      requires forall p <- exited :: p > 0
      modifies pids
      ensures Valid()
      ensures forall i | 0 <= i < pids.Length :: pids[i] == if old(pids[i]) in exited then DEAD else old(pids[i])
    {
      var k := 0;
      while k < |exited|
        invariant k <= |exited|
        invariant forall i | 0 <= i < pids.Length ::
          pids[i] == if old(pids[i]) in exited[..k] then DEAD else old(pids[i])
      {
        var pid := exited[k];
        assert exited[..k + 1] == exited[..k] + [pid];
        for i := 0 to pids.Length
          invariant forall m | 0 <= m < i ::
            pids[m] == if old(pids[m]) in exited[..k + 1] then DEAD else old(pids[m])
          invariant forall m | i <= m < pids.Length ::
            pids[m] == if old(pids[m]) in exited[..k] then DEAD else old(pids[m])
        {
          if pids[i] == pid {
            pids[i] := DEAD;
          }
        }
        k := k + 1;
      }
      assert exited[..k] == exited;
    }

    /** SIGCHLD: the exited children leave the rotation; the parent stops with the last one. */
    method Reap(exited: seq<int>)
      requires Valid()
      requires forall p <- exited :: p > 0
      modifies pids, `stop
      ensures Valid()
      ensures forall i | 0 <= i < pids.Length :: pids[i] == if old(pids[i]) in exited then DEAD else old(pids[i])
      ensures Abstract() == old(Abstract()).Run(Exits(old(pids[..]), exited, pids.Length))
      ensures stop <==> forall i | 0 <= i < pids.Length :: pids[i] == DEAD
    {
      hide Exits, State.Run;
      MarkDead(exited);
      ExitsRun(old(Abstract()), old(pids[..]), exited, pids.Length);
      ghost var after := pids[..];
      stop := true;
      for i := 0 to pids.Length
        invariant pids[..] == after
        invariant stop <==> forall m | 0 <= m < i :: pids[m] == DEAD
      {
        if pids[i] != DEAD {
          stop := false;
        }
      }
      assert Live() == old(Abstract()).Run(Exits(old(pids[..]), exited, pids.Length)).live;
    }
  }
}
