/** The thread pool of 15/15-3threadpool.h as interleaved atomic steps of any number of
    appending threads and worker threads around one queue, one lock and one semaphore. */
module ThreadPool {

  /** A T* request; append accepts a null pointer as well. */
  datatype Request = NullRequest | Job(id: int)
  {
    function Ids(): multiset<int> { if Job? then multiset{id} else multiset{} }
  }

  /** Program counter of a thread that calls append. */
  datatype AppenderPc =
    | Idle
    | Locking(request: Request)
    | Checking(request: Request)  // holds the lock, before the size test
    | Rejecting                   // holds the lock, about to unlock and return false
    | Pushed                      // holds the lock, about to unlock
    | Posting                     // released the lock, about to post
  {
    predicate HoldsLock() { Checking? || Rejecting? || Pushed? }
    predicate Owes() { Pushed? || Posting? }
    function OwesPost(): nat { if Owes() then 1 else 0 }

    /** Steps left, where the post it owes is worth 10. */
    function Rank(): nat
    {
      match this
      case Idle => 0
      case Rejecting => 1
      case Posting => 11
      case Pushed => 12
      case Checking(_) => 13
      case Locking(_) => 14
    }
  }

  /** Program counter of a worker in run. */
  datatype WorkerPc =
    | AtLoop
    | Waiting
    | Woken                       // wait returned, lock not taken yet
    | Looking                     // holds the lock, before the empty test
    | Retrying                    // holds the lock, saw an empty queue
    | Took(request: Request)      // holds the lock, has popped
    | Holding(request: Request)   // released the lock, about to process
    | Exited
  {
    predicate HoldsLock() { Looking? || Retrying? || Took? }
    predicate Committed() { Woken? || Looking? }
    function HasToken(): nat { if Committed() then 1 else 0 }

    function Rank(): nat
    {
      match this
      case Exited => 0
      case Waiting => 0
      case AtLoop => 1
      case Retrying => 2
      case Holding(_) => 2
      case Took(_) => 3
      case Looking => 4
      case Woken => 5
    }

    /** The request popped but not processed yet. */
    function InHand(): Request
    {
      if Took? || Holding? then request else NullRequest
    }
  }

  datatype Owner = Free | ByAppender(i: nat) | ByWorker(j: nat)

  datatype State = State(
    maxRequests: nat,
    queue: seq<Request>,
    sem: nat,
    owner: Owner,
    stop: bool,
    appenders: seq<AppenderPc>,
    workers: seq<WorkerPc>,
    // what happened so far
    accepted: seq<Request>,
    taken: seq<Request>,
    processed: seq<int>,
    failedWaits: nat,
    emptyRetries: nat)

  datatype Event =
    | Call(i: nat, request: Request)
    | AppenderLock(i: nat)
    | Check(i: nat)
    | AppenderUnlock(i: nat)
    | Post(i: nat)
    | Loop(j: nat)
    | Wait(j: nat)
    | WaitFails(j: nat)
    | WorkerLock(j: nat)
    | Take(j: nat)
    | WorkerUnlock(j: nat)
    | Process(j: nat)
    | Stop
  {
    predicate ByAppender() { Call? || AppenderLock? || Check? || AppenderUnlock? || Post? }

    /** A step of a call already made, not a new call, a failing wait or the destructor. */
    predicate Internal() { !Call? && !WaitFails? && !Stop? }
  }

  predicate Init(s: State)
  {
    && s.maxRequests > 0 && |s.workers| > 0
    && s.queue == [] && s.sem == 0 && s.owner == Free && !s.stop
    && (forall i | 0 <= i < |s.appenders| :: s.appenders[i] == Idle)
    && (forall j | 0 <= j < |s.workers| :: s.workers[j] == AtLoop)
    && s.accepted == s.taken == [] && s.processed == []
    && s.failedWaits == s.emptyRetries == 0
  }

  predicate Enabled(s: State, e: Event)
  {
    if e.Stop? then true
    else if e.ByAppender() then
      e.i < |s.appenders| &&
      var pc := s.appenders[e.i];
      match e
      case Call(_, _) => pc == Idle
      case AppenderLock(_) => pc.Locking? && s.owner == Free
      case Check(_) => pc.Checking?
      case AppenderUnlock(_) => pc == Rejecting || pc == Pushed
      case Post(_) => pc == Posting
    else
      e.j < |s.workers| &&
      var pc := s.workers[e.j];
      match e
      case Loop(_) => pc == AtLoop
      case Wait(_) => pc == Waiting && s.sem > 0
      case WaitFails(_) => pc == Waiting
      case WorkerLock(_) => pc == Woken && s.owner == Free
      case Take(_) => pc == Looking
      case WorkerUnlock(_) => pc == Retrying || pc.Took?
      case Process(_) => pc.Holding?
  }

  /** Where the moving appender goes. */
  function AppenderNext(s: State, e: Event): AppenderPc
    requires e.ByAppender() && Enabled(s, e)
  {
    var pc := s.appenders[e.i];
    match e
    case Call(_, r) => Locking(r)
    case AppenderLock(_) => Checking(pc.request)
    case Check(_) => if |s.queue| > s.maxRequests then Rejecting else Pushed
    case AppenderUnlock(_) => if pc == Pushed then Posting else Idle
    case Post(_) => Idle
  }

  /** Where the moving worker goes. */
  function WorkerNext(s: State, e: Event): WorkerPc
    requires !e.ByAppender() && !e.Stop? && Enabled(s, e)
  {
    var pc := s.workers[e.j];
    match e
    case Loop(_) => if s.stop then Exited else Waiting
    case Wait(_) => Woken
    case WaitFails(_) => Woken
    case WorkerLock(_) => Looking
    case Take(_) => if s.queue == [] then Retrying else Took(s.queue[0])
    case WorkerUnlock(_) => if pc.Took? then Holding(pc.request) else AtLoop
    case Process(_) => AtLoop
  }

  /** What the step does to the shared data. */
  function Effect(s: State, e: Event): State
    requires Enabled(s, e)
  {
    match e
    case Call(_, _) => s
    case AppenderLock(i) => s.(owner := Owner.ByAppender(i))
    case Check(i) =>
      var r := s.appenders[i].request;
      if |s.queue| > s.maxRequests then s else s.(queue := s.queue + [r], accepted := s.accepted + [r])
    case AppenderUnlock(_) => s.(owner := Free)
    case Post(_) => s.(sem := s.sem + 1)
    case Loop(_) => s
    case Wait(_) => s.(sem := s.sem - 1)
    case WaitFails(_) => s.(failedWaits := s.failedWaits + 1)
    case WorkerLock(j) => s.(owner := ByWorker(j))
    case Take(_) =>
      if s.queue == [] then s.(emptyRetries := s.emptyRetries + 1)
      else s.(queue := s.queue[1..], taken := s.taken + [s.queue[0]])
    case WorkerUnlock(_) => s.(owner := Free)
    case Process(j) =>
      var r := s.workers[j].request;
      if r.Job? then s.(processed := s.processed + [r.id]) else s
    case Stop => s.(stop := true)
  }

  function Step(s: State, e: Event): State
    requires Enabled(s, e)
  {
    var s' := Effect(s, e);
    if e.Stop? then s'
    else if e.ByAppender() then s'.(appenders := s.appenders[e.i := AppenderNext(s, e)])
    else s'.(workers := s.workers[e.j := WorkerNext(s, e)])
  }

  /** s' is where the events lead from s. */
  ghost predicate Leads(s: State, events: seq<Event>, s': State)
    decreases |events|
  {
    if events == [] then s == s'
    else Enabled(s, events[0]) && Leads(Step(s, events[0]), events[1..], s')
  }

  ghost predicate Reachable(s: State)
  {
    exists s0, events :: Init(s0) && Leads(s0, events, s)
  }

  // ---------- sums over threads ----------

  function Posts(pcs: seq<AppenderPc>): nat
  {
    if pcs == [] then 0 else pcs[0].OwesPost() + Posts(pcs[1..])
  }

  function Tokens(pcs: seq<WorkerPc>): nat
  {
    if pcs == [] then 0 else pcs[0].HasToken() + Tokens(pcs[1..])
  }

  function Hands(pcs: seq<WorkerPc>): multiset<int>
  {
    if pcs == [] then multiset{} else pcs[0].InHand().Ids() + Hands(pcs[1..])
  }

  function AppenderRanks(pcs: seq<AppenderPc>): nat
  {
    if pcs == [] then 0 else pcs[0].Rank() + AppenderRanks(pcs[1..])
  }

  function WorkerRanks(pcs: seq<WorkerPc>): nat
  {
    if pcs == [] then 0 else pcs[0].Rank() + WorkerRanks(pcs[1..])
  }

  /** One thread's step changes the sums by that thread's share. */
  lemma {:induction false} AppenderSums(pcs: seq<AppenderPc>, i: nat, pc: AppenderPc)
    requires i < |pcs|
    ensures Posts(pcs[i := pc]) == Posts(pcs) - pcs[i].OwesPost() + pc.OwesPost()
    ensures AppenderRanks(pcs[i := pc]) == AppenderRanks(pcs) - pcs[i].Rank() + pc.Rank()
    ensures Posts(pcs) >= pcs[i].OwesPost() && AppenderRanks(pcs) >= pcs[i].Rank()
  {
    if i > 0 {
      assert pcs[i := pc][1..] == pcs[1..][i - 1 := pc];
      AppenderSums(pcs[1..], i - 1, pc);
    }
  }

  lemma {:induction false} WorkerSums(pcs: seq<WorkerPc>, j: nat, pc: WorkerPc)
    requires j < |pcs|
    ensures Tokens(pcs[j := pc]) == Tokens(pcs) - pcs[j].HasToken() + pc.HasToken()
    ensures WorkerRanks(pcs[j := pc]) == WorkerRanks(pcs) - pcs[j].Rank() + pc.Rank()
    ensures Tokens(pcs) >= pcs[j].HasToken() && WorkerRanks(pcs) >= pcs[j].Rank()
  {
    if j > 0 {
      assert pcs[j := pc][1..] == pcs[1..][j - 1 := pc];
      WorkerSums(pcs[1..], j - 1, pc);
    }
  }

  lemma Regroup(a: multiset<int>, b: multiset<int>, c: multiset<int>, d: multiset<int>, e: multiset<int>)
    requires b + c == d + e
    ensures (a + b) + c == (a + d) + e
  {
    assert (a + b) + c == a + (b + c);
    assert (a + d) + e == a + (d + e);
  }

  lemma Exchange(a: multiset<int>, b: multiset<int>, c: multiset<int>)
    ensures (a + b) + c == (c + b) + a
  {
  }

  lemma {:induction false} WorkerHands(pcs: seq<WorkerPc>, j: nat, pc: WorkerPc)
    requires j < |pcs|
    ensures Hands(pcs[j := pc]) + pcs[j].InHand().Ids() == Hands(pcs) + pc.InHand().Ids()
  {
    hide WorkerPc.InHand, Request.Ids;
    if j == 0 {
      assert pcs[j := pc][1..] == pcs[1..];
      Exchange(pc.InHand().Ids(), Hands(pcs[1..]), pcs[j].InHand().Ids());
    } else {
      assert pcs[j := pc][1..] == pcs[1..][j - 1 := pc];
      WorkerHands(pcs[1..], j - 1, pc);
      var first, rest := pcs[0].InHand().Ids(), pcs[1..];
      Regroup(first, Hands(rest[j - 1 := pc]), pcs[j].InHand().Ids(), Hands(rest), pc.InHand().Ids());
    }
  }

  // ---------- the invariant ----------

  /** The requests a sequence of pointers stands for. */
  function Jobs(rs: seq<Request>): multiset<int>
  {
    if rs == [] then multiset{}
    else rs[0].Ids() + Jobs(rs[1..])
  }

  lemma {:induction false} JobsSnoc(rs: seq<Request>, r: Request)
    ensures Jobs(rs + [r]) == Jobs(rs) + r.Ids()
  {
    if rs == [] {
      assert rs + [r] == [r];
    } else {
      assert (rs + [r])[1..] == rs[1..] + [r];
      JobsSnoc(rs[1..], r);
    }
  }

  /** Every token is in the semaphore, owed by an appender or held by a woken worker;
      only a wait that failed makes one too many. */
  predicate TokensBalance(s: State)
  {
    && s.emptyRetries <= s.failedWaits
    && s.sem + Posts(s.appenders) + Tokens(s.workers) == |s.queue| + s.failedWaits - s.emptyRetries
  }

  predicate LockExclusive(s: State)
  {
    && (forall i | 0 <= i < |s.appenders| :: s.appenders[i].HoldsLock() <==> s.owner == Owner.ByAppender(i))
    && (forall j | 0 <= j < |s.workers| :: s.workers[j].HoldsLock() <==> s.owner == ByWorker(j))
    && (s.owner.ByAppender? ==> s.owner.i < |s.appenders|)
    && (s.owner.ByWorker? ==> s.owner.j < |s.workers|)
  }

  /** Requests leave in the order they came, and the queue is bounded. */
  predicate Fifo(s: State)
  {
    && s.accepted == s.taken + s.queue
    && |s.queue| <= s.maxRequests + 1
  }

  /** No request is lost between the queue and its processing, none is run twice. */
  predicate Conserves(s: State)
  {
    Jobs(s.taken) == multiset(s.processed) + Hands(s.workers)
  }

  predicate ExitsAfterStop(s: State)
  {
    && |s.workers| > 0
    && (!s.stop ==> Exited !in s.workers)
  }

  predicate Inv(s: State)
  {
    TokensBalance(s) && LockExclusive(s) && Fifo(s) && Conserves(s) && ExitsAfterStop(s)
  }

  lemma {:induction false} InitSums(s: State)
    requires Init(s)
    ensures Inv(s)
  {
    AllIdle(s.appenders);
    AllAtLoop(s.workers);
  }

  lemma {:induction false} AllIdle(pcs: seq<AppenderPc>)
    requires forall k | 0 <= k < |pcs| :: pcs[k] == Idle
    ensures Posts(pcs) == 0
  {
    if pcs != [] { AllIdle(pcs[1..]); }
  }

  lemma {:induction false} AllAtLoop(pcs: seq<WorkerPc>)
    requires forall k | 0 <= k < |pcs| :: pcs[k] == AtLoop
    ensures Tokens(pcs) == 0 && Hands(pcs) == multiset{}
  {
    if pcs != [] { AllAtLoop(pcs[1..]); }
  }

  /** Every atomic step of every thread keeps the invariant. */
  lemma StepKeepsInv(s: State, e: Event)
    requires Inv(s) && Enabled(s, e)
    ensures Inv(Step(s, e))
  {
    StepKeepsTokens(s, e);
    StepKeepsLock(s, e);
    StepKeepsExit(s, e);
    StepKeepsFifo(s, e);
    StepConserves(s, e);
  }

  lemma StepKeepsTokens(s: State, e: Event)
    requires TokensBalance(s) && Enabled(s, e)
    ensures TokensBalance(Step(s, e))
  {
    hide Posts, Tokens, AppenderRanks, WorkerRanks;
    if e.Stop? {
    } else if e.ByAppender() {
      AppenderSums(s.appenders, e.i, AppenderNext(s, e));
    } else {
      WorkerSums(s.workers, e.j, WorkerNext(s, e));
    }
  }

  lemma StepKeepsLock(s: State, e: Event)
    requires LockExclusive(s) && Enabled(s, e)
    ensures LockExclusive(Step(s, e))
  {
    if e.ByAppender() {
      AppenderKeepsLock(s, e);
    } else if !e.Stop? {
      WorkerKeepsLock(s, e);
    }
  }

  lemma AppenderKeepsLock(s: State, e: Event)
    requires LockExclusive(s) && Enabled(s, e) && e.ByAppender()
    ensures LockExclusive(Step(s, e))
  {
    var s' := Step(s, e);
    assert s'.workers == s.workers;
    assert forall i | 0 <= i < |s'.appenders| && i != e.i :: s'.appenders[i] == s.appenders[i];
  }

  lemma WorkerKeepsLock(s: State, e: Event)
    requires LockExclusive(s) && Enabled(s, e) && !e.ByAppender() && !e.Stop?
    ensures LockExclusive(Step(s, e))
  {
    var s' := Step(s, e);
    assert s'.appenders == s.appenders;
    assert forall j | 0 <= j < |s'.workers| && j != e.j :: s'.workers[j] == s.workers[j];
  }

  lemma StepKeepsExit(s: State, e: Event)
    requires ExitsAfterStop(s) && Enabled(s, e)
    ensures ExitsAfterStop(Step(s, e))
  {
  }

  lemma StepKeepsFifo(s: State, e: Event)
    requires Fifo(s) && Enabled(s, e)
    ensures Fifo(Step(s, e))
  {
  }

  lemma StepConserves(s: State, e: Event)
    requires Conserves(s) && Enabled(s, e)
    ensures Conserves(Step(s, e))
  {
    hide Hands, Jobs, WorkerNext, Effect;
    if e.Take? && s.queue != [] {
      TakeConserves(s, e);
    } else if e.Process? {
      ProcessConserves(s, e);
    } else if !e.Stop? && !e.ByAppender() {
      SameInHand(s, e);
      SameHands(s.workers, e.j, WorkerNext(s, e));
    } else if e.Stop? || e.ByAppender() {
      OutsideWorkers(s, e);
    }
  }

  lemma OutsideWorkers(s: State, e: Event)
    requires Enabled(s, e) && (e.Stop? || e.ByAppender())
    ensures Effect(s, e).taken == s.taken && Effect(s, e).processed == s.processed && Effect(s, e).workers == s.workers
  {
  }

  lemma SameInHand(s: State, e: Event)
    requires Enabled(s, e) && !e.Stop? && !e.ByAppender() && !e.Process? && (e.Take? ==> s.queue == [])
    ensures s.workers[e.j].InHand() == WorkerNext(s, e).InHand()
    ensures Effect(s, e).taken == s.taken && Effect(s, e).processed == s.processed && Effect(s, e).workers == s.workers
  {
  }

  lemma SameHands(pcs: seq<WorkerPc>, j: nat, pc: WorkerPc)
    requires j < |pcs| && pcs[j].InHand() == pc.InHand()
    ensures Hands(pcs[j := pc]) == Hands(pcs)
  {
    WorkerHands(pcs, j, pc);
    Cancel(Hands(pcs[j := pc]), Hands(pcs), pc.InHand().Ids());
  }

  lemma NoIds()
    ensures NullRequest.Ids() == multiset{}
  {
  }

  lemma TakeConserves(s: State, e: Event)
    requires Conserves(s) && e.Take? && Enabled(s, e) && s.queue != []
    ensures Conserves(Step(s, e))
  {
    hide Hands, Jobs, Request.Ids;
    NoIds();
    var pc' := WorkerNext(s, e);
    WorkerHands(s.workers, e.j, pc');
    JobsSnoc(s.taken, s.queue[0]);
    var hands, hands' := Hands(s.workers), Hands(s.workers[e.j := pc']);
    var done, ids := multiset(s.processed), s.queue[0].Ids();
    assert s.workers[e.j].InHand().Ids() == multiset{} && hands' + multiset{} == hands';
    assert pc'.InHand().Ids() == ids;
    assert (done + hands) + ids == done + (hands + ids);
  }

  lemma ProcessConserves(s: State, e: Event)
    requires Conserves(s) && e.Process? && Enabled(s, e)
    ensures Conserves(Step(s, e))
  {
    var pc, pc' := s.workers[e.j], WorkerNext(s, e);
    WorkerHands(s.workers, e.j, pc');
    var hands, hands' := Hands(s.workers), Hands(s.workers[e.j := pc']);
    var done, ids := multiset(s.processed), pc.request.Ids();
    assert pc.InHand().Ids() == ids && pc'.InHand().Ids() == multiset{} && hands + multiset{} == hands;
    assert multiset(Step(s, e).processed) == done + ids;
    assert (done + ids) + hands' == done + (hands' + ids);
  }

  lemma Cancel(a: multiset<int>, b: multiset<int>, c: multiset<int>)
    requires a + c == b + c
    ensures a == b
  {
    assert a == (a + c) - c;
    assert b == (b + c) - c;
  }

  lemma {:induction false} LeadsKeepsInv(s: State, events: seq<Event>, s': State)
    requires Inv(s) && Leads(s, events, s')
    ensures Inv(s')
    decreases |events|
  {
    if events != [] {
      StepKeepsInv(s, events[0]);
      LeadsKeepsInv(Step(s, events[0]), events[1..], s');
    }
  }

  lemma ReachableInv(s: State)
    requires Reachable(s)
    ensures Inv(s)
  {
    var s0, events :| Init(s0) && Leads(s0, events, s);
    InitSums(s0);
    LeadsKeepsInv(s0, events, s);
  }

  // ---------- what every run guarantees ----------

  /** The queue and the semaphore agree up to the threads in between and the waits that
      failed; the empty test succeeds at most once per failed wait. */
  lemma TokenAccounting(s: State)
    requires Reachable(s)
    ensures s.sem + Posts(s.appenders) + Tokens(s.workers) == |s.queue| + s.failedWaits - s.emptyRetries
    ensures s.emptyRetries <= s.failedWaits
  {
    ReachableInv(s);
  }

  /** Unless a wait failed, a worker that looks always finds a request. */
  lemma NeverEmptyHanded(s: State, j: nat)
    requires Reachable(s) && s.failedWaits == 0
    requires j < |s.workers| && s.workers[j] == Looking
    ensures s.queue != []
  {
    ReachableInv(s);
    WorkerSums(s.workers, j, Waiting);
  }

  /** First come, first taken, and the size test lets at most maxRequests + 1 requests wait. */
  lemma FifoAndBounded(s: State)
    requires Reachable(s)
    ensures s.accepted == s.taken + s.queue
    ensures |s.queue| <= s.maxRequests + 1
  {
    ReachableInv(s);
  }

  /** One undisturbed call of append. */
  lemma OneCall(s: State, r: Request) returns (call: seq<Event>, s': State)
    requires s.appenders != [] && s.appenders[0] == Idle && s.owner == Free && |s.queue| <= s.maxRequests
    ensures Leads(s, call, s')
    ensures s' == s.(queue := s.queue + [r], accepted := s.accepted + [r], sem := s.sem + 1)
  {
    var s2 := Step(s, Call(0, r));
    var s3 := Step(s2, AppenderLock(0));
    var s4 := Step(s3, Check(0));
    var s5 := Step(s4, AppenderUnlock(0));
    s' := Step(s5, Post(0));
    assert s'.appenders == s.appenders;
    hide Step;
    call := LeadsTo(s5, Post(0), [], s');
    call := LeadsTo(s4, AppenderUnlock(0), call, s');
    call := LeadsTo(s3, Check(0), call, s');
    call := LeadsTo(s2, AppenderLock(0), call, s');
    call := LeadsTo(s, Call(0, r), call, s');
  }

  lemma LeadsTo(s: State, e: Event, events: seq<Event>, s': State) returns (more: seq<Event>)
    requires Enabled(s, e) && Leads(Step(s, e), events, s')
    ensures Leads(s, more, s')
  {
    more := [e] + events;
    assert more[1..] == events;
  }

  /** The bound is met: n calls in a row fill an idle pool with n requests, for n up to maxRequests + 1. */
  lemma {:induction false} BoundIsReached(s: State, n: nat, r: Request) returns (events: seq<Event>, s': State)
    requires Init(s) && s.appenders != [] && n <= s.maxRequests + 1
    ensures Leads(s, events, s') && |s'.queue| == n
    ensures s'.appenders == s.appenders && s'.owner == Free && s'.maxRequests == s.maxRequests
  {
    if n == 0 {
      events, s' := [], s;
    } else {
      var before, s1 := BoundIsReached(s, n - 1, r);
      var call;
      call, s' := OneCall(s1, r);
      LeadsConcat(s, before, s1, call, s');
      events := before + call;
    }
  }

  lemma {:induction false} LeadsConcat(s: State, a: seq<Event>, s1: State, b: seq<Event>, s2: State)
    requires Leads(s, a, s1) && Leads(s1, b, s2)
    ensures Leads(s, a + b, s2)
    decreases |a|
  {
    if a == [] {
      assert a + b == b;
    } else {
      assert (a + b)[1..] == a[1..] + b;
      LeadsConcat(Step(s, a[0]), a[1..], s1, b, s2);
    }
  }

  /** At most one thread is inside the critical sections. */
  lemma MutualExclusion(s: State, i: nat, j: nat)
    requires Reachable(s) && i < |s.appenders| && j < |s.workers|
    ensures !(s.appenders[i].HoldsLock() && s.workers[j].HoldsLock())
    ensures forall k | 0 <= k < |s.appenders| && k != i :: !(s.appenders[i].HoldsLock() && s.appenders[k].HoldsLock())
    ensures forall k | 0 <= k < |s.workers| && k != j :: !(s.workers[j].HoldsLock() && s.workers[k].HoldsLock())
  {
    ReachableInv(s);
  }

  /** No thread can finish a step of a call it has begun. */
  ghost predicate Quiescent(s: State)
  {
    forall e: Event | e.Internal() :: !Enabled(s, e)
  }

  /** No lost wakeup: when a running pool comes to rest, every accepted request has been
      processed exactly once and all workers wait on an empty queue. */
  lemma NoLostWakeup(s: State)
    requires Reachable(s) && !s.stop && Quiescent(s)
    ensures s.queue == [] && s.sem == 0 && s.owner == Free
    ensures (forall i | 0 <= i < |s.appenders| :: s.appenders[i] == Idle)
    ensures (forall j | 0 <= j < |s.workers| :: s.workers[j] == Waiting)
    ensures multiset(s.processed) == Jobs(s.accepted)
  {
    hide Hands, Jobs, Posts, Tokens;
    ReachableInv(s);
    if s.owner != Free {
      var e := OwnerCanMove(s);
    }
    forall i | 0 <= i < |s.appenders|
      ensures s.appenders[i] == Idle
    {
      assert !Enabled(s, AppenderLock(i)) && !Enabled(s, Check(i));
      assert !Enabled(s, AppenderUnlock(i)) && !Enabled(s, Post(i));
    }
    forall j | 0 <= j < |s.workers|
      ensures s.workers[j] == Waiting
    {
      assert s.workers[j] in s.workers;
      assert !Enabled(s, Loop(j)) && !Enabled(s, WorkerLock(j)) && !Enabled(s, Take(j));
      assert !Enabled(s, WorkerUnlock(j)) && !Enabled(s, Process(j));
    }
    AllIdle(s.appenders);
    AllWaiting(s.workers);
    assert !Enabled(s, Wait(0));
    assert s.accepted == s.taken;
  }

  /** Whoever holds the lock can take its next step. */
  lemma OwnerCanMove(s: State) returns (e: Event)
    requires Inv(s) && s.owner != Free
    ensures e.Internal() && Enabled(s, e)
  {
    match s.owner
    case ByAppender(i) =>
      e := if s.appenders[i].Checking? then Check(i) else AppenderUnlock(i);
    case ByWorker(j) =>
      e := if s.workers[j] == Looking then Take(j) else WorkerUnlock(j);
  }

  lemma {:induction false} AllWaiting(pcs: seq<WorkerPc>)
    requires forall k | 0 <= k < |pcs| :: pcs[k] == Waiting
    ensures Tokens(pcs) == 0 && Hands(pcs) == multiset{}
  {
    if pcs != [] { AllWaiting(pcs[1..]); }
  }

  /** The work the calls made so far can still cause. */
  function Work(s: State): nat
  {
    10 * s.sem + AppenderRanks(s.appenders) + WorkerRanks(s.workers)
  }

  lemma WorkDecreases(s: State, e: Event)
    requires Enabled(s, e) && e.Internal()
    ensures Work(Step(s, e)) < Work(s)
  {
    hide Posts, Tokens, AppenderRanks, WorkerRanks;
    var s' := Step(s, e);
    if e.ByAppender() {
      AppenderSums(s.appenders, e.i, AppenderNext(s, e));
    } else {
      WorkerSums(s.workers, e.j, WorkerNext(s, e));
    }
  }

  /** Whatever the scheduler does, a pool that gets no new call comes to rest. */
  lemma {:induction false} ComesToRest(s: State, events: seq<Event>, s': State)
    requires Leads(s, events, s') && forall e <- events :: e.Internal()
    ensures |events| <= Work(s) - Work(s')
    decreases |events|
  {
    if events != [] {
      assert events[0] in events;
      WorkDecreases(s, events[0]);
      ComesToRest(Step(s, events[0]), events[1..], s');
    }
  }

  lemma {:induction false} InternalRun(s: State, events: seq<Event>, s': State)
    requires Leads(s, events, s') && forall e <- events :: e.Internal()
    ensures s'.stop == s.stop && s.accepted <= s'.accepted
    decreases |events|
  {
    if events != [] {
      assert events[0] in events;
      InternalRun(Step(s, events[0]), events[1..], s');
    }
  }

  /** Whatever the scheduler does with a running pool that gets no new call, it can take only
      so many steps; as long as it can take one it has not come to rest, and once it cannot,
      every request accepted before or on the way has been processed exactly once. */
  lemma EveryRunFinishes(s: State, events: seq<Event>, s': State)
    requires Reachable(s) && !s.stop && Leads(s, events, s') && forall e <- events :: e.Internal()
    ensures |events| <= Work(s) && s.accepted <= s'.accepted
    ensures Quiescent(s') ==> s'.queue == [] && multiset(s'.processed) == Jobs(s'.accepted)
  {
    ComesToRest(s, events, s');
    InternalRun(s, events, s');
    if Quiescent(s') {
      ReachableFrom(s, events, s');
      NoLostWakeup(s');
    }
  }

  lemma ReachableFrom(s: State, events: seq<Event>, s': State)
    requires Reachable(s) && Leads(s, events, s')
    ensures Reachable(s')
  {
    var s0, before :| Init(s0) && Leads(s0, before, s);
    LeadsConcat(s0, before, s, events, s');
  }

  /** And it can always come to rest. */
  lemma {:induction false} RunsToRest(s: State) returns (events: seq<Event>, s': State)
    ensures Leads(s, events, s') && (forall e <- events :: e.Internal()) && Quiescent(s')
    decreases Work(s)
  {
    if Quiescent(s) {
      events, s' := [], s;
    } else {
      var e: Event :| e.Internal() && Enabled(s, e);
      WorkDecreases(s, e);
      var rest;
      rest, s' := RunsToRest(Step(s, e));
      events := [e] + rest;
      assert events[1..] == rest;
    }
  }

  // ---------- after the destructor ----------

  lemma {:induction false} JobsConcat(a: seq<Request>, b: seq<Request>)
    ensures Jobs(a + b) == Jobs(a) + Jobs(b)
  {
    if a == [] {
      assert a + b == b;
    } else {
      assert (a + b)[1..] == a[1..] + b;
      JobsConcat(a[1..], b);
    }
  }

  /** A stopped pool at rest: every worker has left, or waits for good at a semaphore of 0. What
      is left in the queue is as much as the semaphore still counts, less the failed waits that
      took nothing; requests stay behind only when all workers have left. */
  lemma StoppedAtRest(s: State)
    requires Reachable(s) && s.stop && Quiescent(s)
    ensures s.owner == Free && forall i | 0 <= i < |s.appenders| :: s.appenders[i] == Idle
    ensures forall j | 0 <= j < |s.workers| :: s.workers[j] == Exited || (s.workers[j] == Waiting && s.sem == 0)
    ensures |s.queue| == s.sem - (s.failedWaits - s.emptyRetries)
    ensures s.queue != [] ==> forall j | 0 <= j < |s.workers| :: s.workers[j] == Exited
    ensures multiset(s.processed) + Jobs(s.queue) == Jobs(s.accepted)
  {
    hide Hands, Jobs, Posts, Tokens;
    ReachableInv(s);
    if s.owner != Free {
      var e := OwnerCanMove(s);
    }
    forall i | 0 <= i < |s.appenders|
      ensures s.appenders[i] == Idle
    {
      assert !Enabled(s, AppenderLock(i)) && !Enabled(s, Check(i));
      assert !Enabled(s, AppenderUnlock(i)) && !Enabled(s, Post(i));
    }
    forall j | 0 <= j < |s.workers|
      ensures s.workers[j] == Exited || (s.workers[j] == Waiting && s.sem == 0)
    {
      assert !Enabled(s, Loop(j)) && !Enabled(s, WorkerLock(j)) && !Enabled(s, Take(j)) && !Enabled(s, Wait(j));
      assert !Enabled(s, WorkerUnlock(j)) && !Enabled(s, Process(j));
    }
    AllIdle(s.appenders);
    NoneBusy(s.workers);
    JobsConcat(s.taken, s.queue);
  }

  lemma {:induction false} NoneBusy(pcs: seq<WorkerPc>)
    requires forall k | 0 <= k < |pcs| :: pcs[k] == Waiting || pcs[k] == Exited
    ensures Tokens(pcs) == 0 && Hands(pcs) == multiset{}
  {
    if pcs != [] { NoneBusy(pcs[1..]); }
  }

  /** The first n workers of a stopped pool leave. */
  lemma {:induction false} AllLeave(s: State, n: nat) returns (events: seq<Event>, s': State)
    requires s.stop && n <= |s.workers| && forall j | 0 <= j < n :: s.workers[j] == AtLoop
    ensures Leads(s, events, s') && s' == s.(workers := s'.workers) && |s'.workers| == |s.workers|
    ensures forall j | 0 <= j < |s.workers| :: s'.workers[j] == if j < n then Exited else s.workers[j]
  {
    if n == 0 {
      events, s' := [], s;
    } else {
      var earlier, s1 := AllLeave(s, n - 1);
      s' := Step(s1, Loop(n - 1));
      var last := LeadsTo(s1, Loop(n - 1), [], s');
      LeadsConcat(s, earlier, s1, last, s');
      events := earlier + last;
    }
  }

  /** It happens: the pool is stopped, its workers leave, and then a request is appended. */
  lemma RequestLeftBehind(s: State, r: Request) returns (events: seq<Event>, s': State)
    requires Init(s) && s.appenders != []
    ensures Leads(s, events, s') && s'.stop && Quiescent(s') && s'.queue == [r] && s'.processed == []
  {
    hide Leads, Enabled, Quiescent;
    StopStep(s);
    var s1 := Step(s, Stop);
    var leave, s2 := AllLeave(s1, |s.workers|);
    var call;
    call, s' := OneCall(s2, r);
    LeadsConcat(s1, leave, s2, call, s');
    events := LeadsTo(s, Stop, leave + call, s');
    AllGone(s');
  }

  lemma StopStep(s: State)
    ensures Enabled(s, Stop) && Step(s, Stop) == s.(stop := true)
  {
  }

  lemma AllGone(s: State)
    requires forall i | 0 <= i < |s.appenders| :: s.appenders[i] == Idle
    requires forall j | 0 <= j < |s.workers| :: s.workers[j] == Exited
    ensures Quiescent(s)
  {
  }

  /** The workers that are past the test of the stop flag and have not looked at the queue. */
  function PastTheTest(s: State): set<nat>
  {
    set j: nat | j < |s.workers| && (s.workers[j] == Waiting || s.workers[j] == Woken || s.workers[j] == Looking)
  }

  lemma StepWhenStopped(s: State, e: Event)
    requires s.stop && Enabled(s, e)
    ensures Step(s, e).stop && |Step(s, e).taken| + |PastTheTest(Step(s, e))| <= |s.taken| + |PastTheTest(s)|
  {
    var s' := Step(s, e);
    var before, after := PastTheTest(s), PastTheTest(s');
    forall j | j in after
      ensures j in before && !(e.Take? && j == e.j)
    {
      assert e.ByAppender() || e.Stop? || j == e.j || s'.workers[j] == s.workers[j];
    }
    if e.Take? {
      assert e.j in before && after <= before - {e.j};
      SmallerSet(after, before - {e.j});
    } else {
      SmallerSet(after, before);
    }
  }

  lemma SmallerSet<T>(a: set<T>, b: set<T>)
    requires a <= b
    ensures |a| <= |b|
  {
    assert b == a + (b - a);
  }

  /** Once a pool is stopped, a worker takes at most one more request, and only if it was past
      the test of the flag already. */
  lemma {:induction false} TakenAfterStop(s: State, events: seq<Event>, s': State)
    requires s.stop && Leads(s, events, s')
    ensures |s'.taken| - |s.taken| <= |set j: nat | j < |s.workers| &&
              (s.workers[j] == Waiting || s.workers[j] == Woken || s.workers[j] == Looking)|
    ensures |s'.taken| + |PastTheTest(s')| <= |s.taken| + |PastTheTest(s)|
    decreases |events|
  {
    assert PastTheTest(s) == set j: nat | j < |s.workers| &&
              (s.workers[j] == Waiting || s.workers[j] == Woken || s.workers[j] == Looking);
    hide PastTheTest;
    if events != [] {
      StepWhenStopped(s, events[0]);
      TakenAfterStop(Step(s, events[0]), events[1..], s');
    }
  }

  // ---------- what the bookkeeping stands for ----------

  /** A job is counted as often as its pointer occurs; null pointers are no jobs. */
  lemma {:induction false} JobsMeans(rs: seq<Request>, id: int)
    ensures Jobs(rs)[id] == multiset(rs)[Job(id)]
  {
    if rs != [] {
      JobsMeans(rs[1..], id);
      assert rs == [rs[0]] + rs[1..];
      assert multiset(rs) == multiset{rs[0]} + multiset(rs[1..]);
      assert rs[0].Ids()[id] == if rs[0] == Job(id) then 1 else 0;
      assert multiset{rs[0]}[Job(id)] == if rs[0] == Job(id) then 1 else 0;
    }
  }

  /** A pool of any size starts with an empty queue, idle appenders and workers at their loop. */
  lemma StartState(maxRequests: nat, appenders: nat, workers: nat)
    requires maxRequests > 0 && workers > 0
    ensures Init(State(maxRequests, [], 0, Free, false, seq(appenders, i => Idle), seq(workers, j => AtLoop),
                       [], [], [], 0, 0))
  {
  }

  /** A failing wait lets a worker look at an empty queue and try again. */
  lemma FailedWaitRetries(s: State) returns (events: seq<Event>, s': State)
    requires Init(s)
    ensures Leads(s, events, s') && s'.emptyRetries == 1
    ensures s'.workers != [] && s'.workers[0] == AtLoop && s'.queue == []
  {
    var s1 := Step(s, Loop(0));
    var s2 := Step(s1, WaitFails(0));
    var s3 := Step(s2, WorkerLock(0));
    var s4 := Step(s3, Take(0));
    s' := Step(s4, WorkerUnlock(0));
    hide Step;
    events := LeadsTo(s4, WorkerUnlock(0), [], s');
    events := LeadsTo(s3, Take(0), events, s');
    events := LeadsTo(s2, WorkerLock(0), events, s');
    events := LeadsTo(s1, WaitFails(0), events, s');
    events := LeadsTo(s, Loop(0), events, s');
  }
}
