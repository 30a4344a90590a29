/** The connection manager of springsnail/mgr.cpp: every connection to the logic server is
    idle, bound to a client, or waiting to be reconnected. */
module ConnPool {
  import opened PoolBooks
  import opened Relay

  datatype OpType = Read | Write | Error

  /** The outcomes of connect calls: a new descriptor, or a negative number. The system never
      hands out a descriptor twice. */
  predicate GoodConnects(outcomes: seq<int>)
  {
    forall k, l | 0 <= k < l < |outcomes| && outcomes[k] >= 0 :: outcomes[k] != outcomes[l]
  }

  function Failures(outcomes: seq<int>): (n: nat)
    ensures n <= |outcomes|
  {
    if outcomes == [] then 0
    else (if outcomes[0] < 0 then 1 else 0) + Failures(outcomes[1..])
  }

  /** The descriptors the calls returned. */
  function Opened(outcomes: seq<int>): set<int>
  {
    set fd <- outcomes | fd >= 0
  }

  lemma NoneOpened()
    ensures Opened([]) == {}
  {
  }

  /** The next outcome of a run of calls. */
  lemma OneMore(outcomes: seq<int>, i: nat)
    requires i < |outcomes| && GoodConnects(outcomes)
    ensures outcomes[i] >= 0 ==> outcomes[i] !in Opened(outcomes[..i])
    ensures Opened(outcomes[..i + 1]) == Opened(outcomes[..i]) + if outcomes[i] < 0 then {} else {outcomes[i]}
  {
    assert outcomes[..i + 1] == outcomes[..i] + [outcomes[i]];
    assert outcomes[..i + 1][..i] == outcomes[..i];
  }

  /** The freed connections, in the order of their old descriptors, get the descriptors the
      connect calls return, or are given up. */
  function Recycled(b: Books<Conn>, outcomes: seq<int>): Books<Conn>
    decreases |outcomes|
  {
    if outcomes == [] || b.freed == map[] then b
    else Recycled(b.Reconnect(First(b.freed), outcomes[0]), outcomes[1..])
  }

  lemma RecycleOne(b: Books<Conn>, outcomes: seq<int>, i: nat)
    requires i < |outcomes| && b.freed != map[]
    ensures Recycled(b, outcomes[i..]) == Recycled(b.Reconnect(First(b.freed), outcomes[i]), outcomes[i + 1..])
  {
    assert outcomes[i..][0] == outcomes[i] && outcomes[i..][1..] == outcomes[i + 1..];
  }

  /** Every new descriptor is idle afterwards, no idle one is lost, and the failures are the
      only connections that are. */
  lemma {:induction false} RecycledTotal(b: Books<Conn>, outcomes: seq<int>)
    requires b.Partitioned() && b.Keyed() && |outcomes| == |b.freed| && GoodConnects(outcomes)
    requires forall k | 0 <= k < |outcomes| && outcomes[k] >= 0 :: b.Unused(outcomes[k])
    ensures Recycled(b, outcomes).Total() == b.Total() - Failures(outcomes)
    ensures forall fd :: fd in Recycled(b, outcomes).conns <==> fd in b.conns || fd in Opened(outcomes)
    decreases |outcomes|
  {
    hide First, IsFirst, Books.Partitioned, Books.Keyed, Books.Total, Books.Reconnect, Recycled, GoodConnects, Opened;
    if outcomes == [] {
      NoneLeft(b, outcomes);
      NoneOpened();
    } else {
      var k, fd, rest := First(b.freed), outcomes[0], outcomes[1..];
      var b' := b.Reconnect(k, fd);
      assert outcomes[0..] == outcomes;
      RecycleOne(b, outcomes, 0);
      b.ReconnectKeeps(k, fd);
      OpenedFirst(outcomes);
      ReconnectMaps(b, k, fd);
      RecycledTotal(b', rest);
    }
  }

  function Below(m: map<int, Conn>, k: int): set<int>
  {
    set k' <- m | k' < k
  }

  /** The descriptor fd went to the freed connection with k smaller old descriptors. */
  predicate GoesTo(freed: map<int, Conn>, conns: map<int, Conn>, fd: int, k: int)
  {
    fd in conns && exists was <- freed :: |Below(freed, was)| == k && conns[fd] == freed[was]
  }

  /** The descriptors are handed out in the order of the old ones: the k-th connect call is for
      the connection with k smaller old descriptors. Idle and bound connections stay. */
  lemma {:induction false} RecycledInOrder(b: Books<Conn>, outcomes: seq<int>)
    requires |outcomes| == |b.freed| && GoodConnects(outcomes)
    requires forall k | 0 <= k < |outcomes| && outcomes[k] >= 0 :: b.Unused(outcomes[k])
    ensures Recycled(b, outcomes).used == b.used
    ensures forall fd <- b.conns :: fd in Recycled(b, outcomes).conns && Recycled(b, outcomes).conns[fd] == b.conns[fd]
    ensures forall k | 0 <= k < |outcomes| && outcomes[k] >= 0 ::
      GoesTo(b.freed, Recycled(b, outcomes).conns, outcomes[k], k)
    decreases |outcomes|
  {
    hide IsFirst, First, Recycled, GoodConnects, Opened, Books.Reconnect, GoesTo, Below;
    if outcomes == [] {
      NoneLeft(b, outcomes);
    } else {
      var key, fd, rest := First(b.freed), outcomes[0], outcomes[1..];
      var b' := b.Reconnect(key, fd);
      assert outcomes[0..] == outcomes;
      RecycleOne(b, outcomes, 0);
      OpenedFirst(outcomes);
      ReconnectMaps(b, key, fd);
      RecycledInOrder(b', rest);
      var r := Recycled(b, outcomes);
      if fd >= 0 {
        GoesFirst(b.freed, r.conns, fd);
      }
      forall k | 0 < k < |outcomes| && outcomes[k] >= 0
        ensures GoesTo(b.freed, r.conns, outcomes[k], k)
      {
        assert outcomes[k] == rest[k - 1];
        GoesLater(b.freed, r.conns, outcomes[k], k);
      }
    }
  }

  lemma GoesFirst(freed: map<int, Conn>, conns: map<int, Conn>, fd: int)
    requires freed != map[] && fd in conns && conns[fd] == freed[First(freed)]
    ensures GoesTo(freed, conns, fd, 0)
  {
    Smaller(freed, First(freed));
  }

  lemma GoesLater(freed: map<int, Conn>, conns: map<int, Conn>, fd: int, k: int)
    requires freed != map[] && GoesTo(freed - {First(freed)}, conns, fd, k - 1)
    ensures GoesTo(freed, conns, fd, k)
  {
    var first := First(freed);
    Smaller(freed, first);
    hide First, Below;
    var rest := freed - {first};
    var was :| was in rest && |Below(rest, was)| == k - 1 && conns[fd] == rest[was];
    assert was in freed && |Below(freed, was)| == k;
  }

  /** Without the first key, every other one has one smaller key fewer. */
  lemma Smaller(m: map<int, Conn>, first: int)
    requires m != map[] && first == First(m)
    ensures Below(m, first) == {}
    ensures forall k | k in m && k != first :: |Below(m, k)| == |Below(m - {first}, k)| + 1
  {
    forall k | k in m && k != first
      ensures |Below(m, k)| == |Below(m - {first}, k)| + 1
    {
      assert Below(m, k) == Below(m - {first}, k) + {first};
    }
  }

  lemma ReconnectMaps(b: Books<Conn>, k: int, fd: int)
    requires k in b.freed
    ensures |b.Reconnect(k, fd).freed| == |b.freed| - 1 && b.Reconnect(k, fd).used == b.used
    ensures b.Reconnect(k, fd).freed == b.freed - {k}
    ensures b.Reconnect(k, fd).conns == if fd < 0 then b.conns else b.conns[fd := b.freed[k]]
    ensures forall fd' :: fd' in b.Reconnect(k, fd).conns <==> fd' in b.conns || (fd' == fd && fd >= 0)
  {
    hide IsFirst;
    assert (b.freed - {k}).Keys == b.freed.Keys - {k};
  }

  lemma OpenedFirst(outcomes: seq<int>)
    requires outcomes != [] && GoodConnects(outcomes)
    ensures GoodConnects(outcomes[1..])
    ensures forall fd :: fd in Opened(outcomes) <==> (fd == outcomes[0] && fd >= 0) || fd in Opened(outcomes[1..])
    ensures forall k | 0 < k < |outcomes| && outcomes[k] >= 0 :: outcomes[k] != outcomes[0]
  {
    assert outcomes == [outcomes[0]] + outcomes[1..];
  }

  lemma NoneLeft(b: Books<Conn>, outcomes: seq<int>)
    requires b.freed == map[]
    ensures Recycled(b, outcomes) == b
  {
  }

  ghost function Buffers(pool: set<Conn>): set<object>
  {
    (set c <- pool :: c.cltBuf) + (set c <- pool :: c.srvBuf)
  }

  /** No two connections share a buffer. */
  ghost predicate Separate(pool: set<Conn>)
  {
    forall c, d | c in pool && d in pool && c != d ::
      c.cltBuf != d.cltBuf && c.cltBuf != d.srvBuf && c.srvBuf != d.srvBuf
  }

  /** Every connection knows the descriptors the ledger has for it, and relays faithfully;
      those not bound to a client are reset. */
  ghost predicate Sound(clt: map<Conn, int>, srv: map<Conn, int>, bound: set<Conn>)
    reads clt.Keys, Buffers(clt.Keys)
  {
    && clt.Keys == srv.Keys
    && Separate(clt.Keys)
    && (forall c <- clt.Keys :: c.cltFd == clt[c] && c.srvFd == srv[c] && c.Valid())
    && (forall c <- clt.Keys :: c in bound || c.Fresh())
  }

  lemma NoBooks()
    ensures var none: map<int, Conn>, of: map<Conn, int> := map[], map[];
            Books(none, none, none, of, of).Ok() && Sound(map[], map[], {})
  {
  }

  lemma Knows(clt: map<Conn, int>, srv: map<Conn, int>, bound: set<Conn>, c: Conn)
    requires Sound(clt, srv, bound) && c in clt
    ensures c in srv && c.cltFd == clt[c] && c.srvFd == srv[c] && c.Valid()
  {
  }

  /** A fresh connection with buffers of its own joins the others. */
  lemma NewConn(clt: map<Conn, int>, srv: map<Conn, int>, c: Conn)
    requires Sound(clt, srv, {}) && c !in clt && c.Valid() && c.Fresh()
    requires c.cltBuf !in Buffers(clt.Keys) && c.srvBuf !in Buffers(clt.Keys)
    ensures Sound(clt[c := -1], srv[c := c.srvFd], {})
  {
    hide Conn.Valid;
  }

  lemma OwnBuffers(c: Conn)
    requires c.Valid()
    ensures c.cltBuf != c.srvBuf && c.cltBuf.Length > 0 && c.srvBuf.Length > 0
  {
  }

  lemma MoreBound(clt: map<Conn, int>, srv: map<Conn, int>, bound: set<Conn>, more: set<Conn>)
    requires Sound(clt, srv, bound) && bound <= more
    ensures Sound(clt, srv, more)
  {
  }

  class Manager {
    var conns: map<int, Conn>
    var used: map<int, Conn>
    var freed: map<int, Conn>
    /** The descriptors each surviving connection knows. */
    ghost var clt: map<Conn, int>
    ghost var srv: map<Conn, int>

    ghost function Ledger(): Books<Conn>
      reads this
    {
      Books(conns, used, freed, clt, srv)
    }

    ghost predicate Valid()
      reads this, clt.Keys, Buffers(clt.Keys)
    {
      Ledger().Ok() && Sound(clt, srv, used.Values)
    }

    /** get_used_conn_cnt: two entries for each bound pair of client and server. */
    method GetUsedConnCnt() returns (n: nat)
      requires Valid()
      ensures n == 2 * |used.Values|
    {
      Ledger().CountsPool();
      return |used|;
    }

    /** A client was accepted: the first idle connection is filed under both descriptors. */
    method PickConn(cltFd: int) returns (c: Conn?, ghost srvFd: int)
      requires Sound(clt, srv, used.Values)
      requires Ledger().Unused(cltFd) && conns.Keys !! used.Keys
      modifies `conns, `used
      ensures Sound(clt, srv, old(used.Values))
      ensures c == null ==> old(conns) == map[] && Ledger() == old(Ledger())
      ensures c != null ==>
        && IsFirst(old(conns), srvFd) && srvFd in old(conns) && c == old(conns)[srvFd]
        && conns == old(conns) - {srvFd}
        && used == old(used)[cltFd := c][srvFd := c]
    {
      hide Conn.Valid, Conn.Fresh;
      srvFd := 0;
      if |conns| == 0 {
        return null, srvFd;
      }
      var begin := First(conns);
      srvFd := begin;
      var idle := conns[begin];
      conns := conns - {begin};
      used := Insert(used, cltFd, idle);
      used := Insert(used, begin, idle);
      return idle, srvFd;
    }

    /** init_clt of a connection just picked. */
    method Introduce(c: Conn, cltFd: int)
      requires Sound(clt, srv, used.Values) && c in clt && c in used.Values
      modifies c`cltFd, `clt
      ensures clt == old(clt)[c := cltFd] && Sound(clt, srv, used.Values)
    {
      hide Conn.Valid;
      c.InitClt(cltFd);
      clt := clt[c := cltFd];
    }

    /** The accept step of processpool.h: pick_conn followed by init_clt. */
    method Accept(cltFd: int) returns (c: Conn?, ghost srvFd: int)
      requires Valid() && Ledger().Unused(cltFd)
      modifies `conns, `used, `clt, clt.Keys`cltFd
      ensures Valid()
      ensures c == null ==> old(conns) == map[] && Ledger() == old(Ledger())
      ensures c != null ==>
        && IsFirst(old(conns), srvFd) && srvFd in old(conns) && c == old(conns)[srvFd]
        && Ledger() == old(Ledger()).Bind(cltFd, srvFd)
        && conns == old(conns) - {srvFd} && used == old(used)[cltFd := c][srvFd := c] && freed == old(freed)
        && clt == old(clt)[c := cltFd] && srv == old(srv)
      ensures Ledger().Total() == old(Ledger()).Total()
    {
      hide Sound, Books.Ok, Books.Total;
      ghost var before := Ledger();
      before.Disjoint();
      c, srvFd := PickConn(cltFd);
      if c == null {
        return;
      }
      before.IdleEntry(srvFd);
      before.BindKeepsOk(cltFd, srvFd);
      InsertEntry(before.used, cltFd, c);
      InsertEntry(before.used[cltFd := c], srvFd, c);
      MoreBound(clt, srv, before.used.Values, used.Values);
      Introduce(c, cltFd);
    }

    /** Resets a bound connection that is about to leave the used map. */
    method Retire(c: Conn)
      requires Sound(clt, srv, used.Values) && c in clt
      modifies c, c.cltBuf, c.srvBuf, `clt
      ensures clt == old(clt)[c := -1] && Sound(clt, srv, used.Values - {c})
      ensures c.Session() == Flows([], [], [], []) && c.cltFd == -1 && !c.srvClosed
    {
      hide Conn.Valid, Conn.Fresh;
      OwnBuffers(c);
      c.Reset();
      clt := clt[c := -1];
    }

    /** The map updates of free_conn. */
    method Unbind(c: Conn, cltFd: int, srvFd: int)
      requires Sound(clt, srv, used.Values - {c}) && srvFd !in freed
      modifies `used, `freed
      ensures Sound(clt, srv, old(used.Values) - {c})
      ensures used == old(used) - {cltFd, srvFd} && freed == old(freed)[srvFd := c]
    {
      hide Conn.Valid, Conn.Fresh;
      used := used - {cltFd};
      used := used - {srvFd};
      freed := Insert(freed, srvFd, c);
      assert used == old(used) - {cltFd, srvFd};
    }

    method FreeConn(c: Conn)
      requires Valid() && c in used.Values
      modifies `used, `freed, `clt, c, c.cltBuf, c.srvBuf
      ensures Valid()
      ensures Ledger() == old(Ledger()).Free(c)
      ensures conns == old(conns) && used == old(used) - {old(c.cltFd), old(c.srvFd)}
      ensures freed == old(freed)[old(c.srvFd) := c] && srv == old(srv) && clt == old(clt)[c := -1]
      ensures c.Session() == Flows([], [], [], []) && c.cltFd == -1 && !c.srvClosed
      ensures Ledger().Total() == old(Ledger()).Total()
    {
      ghost var before := Ledger();
      hide Sound, Books.Ok, Books.Total;
      before.FreeKeepsOk(c);
      before.FreeValues(c);
      before.BoundEntry(c);
      Knows(clt, srv, used.Values, c);
      var cltFd, srvFd := c.cltFd, c.srvFd;
      Retire(c);
      Unbind(c, cltFd, srvFd);
    }

    /** Connects as many times as the configuration asks; each success is an idle connection. */
    constructor (outcomes: seq<int>, size: nat)
      requires GoodConnects(outcomes) && size > 0
      ensures Valid() && used == map[] && freed == map[]
      ensures conns.Keys == Opened(outcomes)
    {
      hide Sound, Books.Ok, GoodConnects, Opened;
      conns, used, freed := map[], map[], map[];
      clt, srv := map[], map[];
      new;
      NoBooks();
      NoneOpened();
      for i := 0 to |outcomes|
        invariant Ledger().Ok() && Sound(clt, srv, {}) && used == map[] && freed == map[]
        invariant conns.Keys == Opened(outcomes[..i])
      {
        var sockFd := outcomes[i];
        OneMore(outcomes, i);
        if sockFd >= 0 {
          AddConn(sockFd, size);
        }
      }
      assert outcomes[..|outcomes|] == outcomes;
      assert used.Values == {};
    }

    method NewConnection(sockFd: int, size: nat) returns (c: Conn)
      requires Sound(clt, srv, {}) && size > 0
      ensures Sound(clt, srv, {}) && c !in clt && c.Valid() && c.Fresh() && c.srvFd == sockFd
      ensures c.cltBuf !in Buffers(clt.Keys) && c.srvBuf !in Buffers(clt.Keys)
      ensures fresh(c)
    {
      hide Conn.Valid, Conn.Fresh;
      c := new Conn(size);
      c.InitSrv(sockFd);
    }

    method AddConn(sockFd: int, size: nat)
      requires Ledger().Ok() && Sound(clt, srv, {}) && used == map[] && freed == map[]
      requires sockFd !in conns && size > 0
      modifies `conns, `clt, `srv
      ensures Ledger().Ok() && Sound(clt, srv, {})
      ensures conns.Keys == old(conns).Keys + {sockFd}
    {
      hide Conn.Valid, Conn.Fresh, Books.Ok, Sound;
      var c := NewConnection(sockFd, size);
      Ledger().AddIdleKeepsOk(sockFd, c);
      ghost var clt0, srv0 := clt, srv;
      conns := Insert(conns, sockFd, c);
      clt := clt[c := -1];
      srv := srv[c := sockFd];
      NewConn(clt0, srv0, c);
    }

    /** What recycle_conns has left to do: `rest` are the freed entries not yet retried. */
    ghost function Retrying(rest: map<int, Conn>): Books<Conn>
      reads this
    {
      Books(conns, used, rest, clt, srv)
    }

    ghost predicate Working(rest: map<int, Conn>)
      reads this, clt.Keys, Buffers(clt.Keys)
    {
      Retrying(rest).Partitioned() && Retrying(rest).Keyed() && Sound(clt, srv, used.Values)
    }

    /** A freed connection got a new descriptor. */
    method Revive(c: Conn, srvFd: int)
      requires Sound(clt, srv, used.Values) && c in clt && srvFd !in conns
      modifies `conns, `srv, c`srvFd
      ensures Sound(clt, srv, used.Values)
      ensures conns == old(conns)[srvFd := c] && srv == old(srv)[c := srvFd]
    {
      hide Conn.Valid, Conn.Fresh;
      c.InitSrv(srvFd);
      conns := Insert(conns, srvFd, c);
      srv := srv[c := srvFd];
    }

    /** A freed connection could not be reconnected and is lost. */
    ghost method GiveUp(c: Conn)
      requires Sound(clt, srv, used.Values)
      modifies `clt, `srv
      ensures Sound(clt, srv, used.Values)
      ensures clt == old(clt) - {c} && srv == old(srv) - {c}
    {
      hide Conn.Valid, Conn.Fresh;
      clt := clt - {c};
      srv := srv - {c};
    }

    /** One turn of the loop: the freed entry k got descriptor srvFd, or none. */
    method Retry(k: int, c: Conn, srvFd: int, ghost rest: map<int, Conn>)
      requires Working(rest)
      requires k in rest && rest[k] == c && (srvFd < 0 || Retrying(rest).Unused(srvFd))
      modifies `conns, `clt, `srv, c`srvFd
      ensures c in old(clt) && Working(rest - {k})
      ensures forall fd :: fd in conns <==> fd in old(conns) || (fd == srvFd && srvFd >= 0)
      ensures clt.Keys <= old(clt.Keys)
      ensures Retrying(rest - {k}) == old(Retrying(rest)).Reconnect(k, srvFd)
      ensures Retrying(rest - {k}).Total() == old(Retrying(rest)).Total() - if srvFd < 0 then 1 else 0
    {
      hide Sound, Books.Partitioned, Books.Keyed, Books.Total;
      Retrying(rest).ReconnectKeeps(k, srvFd);
      Retrying(rest).FreedEntry(k);
      ghost var b := Retrying(rest).Reconnect(k, srvFd);
      if srvFd < 0 {
        GiveUp(c);
      } else {
        Revive(c, srvFd);
      }
      assert Retrying(rest - {k}) == b;
    }

    /** The loop of recycle_conns: every freed connection is tried once. */
    method RetryAll(outcomes: seq<int>)
      requires Working(freed) && GoodConnects(outcomes) && |outcomes| == |freed|
      requires forall k | 0 <= k < |outcomes| && outcomes[k] >= 0 :: outcomes[k] !in conns && outcomes[k] !in used
      modifies `conns, `clt, `srv, clt.Keys`srvFd
      ensures Working(map[])
      ensures Retrying(map[]) == Recycled(old(Ledger()), outcomes)
    {
      hide Working, IsFirst, First, Books.Reconnect, Recycled;
      ghost var keys := clt.Keys;
      var rest, i := freed, 0;
      assert outcomes[0..] == outcomes && Retrying(rest) == Ledger();
      while |rest| != 0
        invariant Working(rest)
        invariant 0 <= i && |rest| + i == |freed| && clt.Keys <= keys
        invariant forall k | i <= k < |outcomes| && outcomes[k] >= 0 :: outcomes[k] !in conns
        invariant Recycled(Retrying(rest), outcomes[i..]) == Recycled(old(Ledger()), outcomes)
      {
        var k := First(rest);
        var c := rest[k];
        var srvFd := outcomes[i];
        RecycleOne(Retrying(rest), outcomes, i);
        Entry(rest, k);
        Retry(k, c, srvFd, rest);
        rest := rest - {k};
        i := i + 1;
      }
      NoneLeft(Retrying(rest), outcomes[i..]);
    }

    lemma Entry(rest: map<int, Conn>, k: int)
      requires Working(rest) && k in rest
      ensures rest[k] in clt
    {
      Retrying(rest).FreedEntry(k);
    }

    /** Tries to reconnect every freed connection; the failures are given up. The system only
        returns descriptors that are not in use. */
    method RecycleConns(outcomes: seq<int>)
      requires Valid() && GoodConnects(outcomes) && |outcomes| == |freed|
      requires forall k | 0 <= k < |outcomes| && outcomes[k] >= 0 :: outcomes[k] !in conns && outcomes[k] !in used
      modifies `conns, `freed, `clt, `srv, clt.Keys`srvFd
      ensures Valid() && freed == map[] && used == old(used)
      ensures Ledger() == Recycled(old(Ledger()), outcomes)
      ensures forall fd :: fd in conns <==> fd in old(conns) || fd in Opened(outcomes)
      ensures Ledger().Total() == old(Ledger()).Total() - Failures(outcomes)
    {
      hide Sound, GoodConnects, Opened, Failures, Books.Ok, Books.Total, Books.Partitioned, Books.Keyed, Recycled;
      Ledger().OkParts();
      RecycledTotal(Ledger(), outcomes);
      if |freed| == 0 {
        NoneLeft(Ledger(), outcomes);
        return;
      }
      Recycle(outcomes);
    }

    /** The loop and m_freed.clear. */
    method Recycle(outcomes: seq<int>)
      requires Valid() && GoodConnects(outcomes) && |outcomes| == |freed|
      requires forall k | 0 <= k < |outcomes| && outcomes[k] >= 0 :: outcomes[k] !in conns && outcomes[k] !in used
      modifies `conns, `freed, `clt, `srv, clt.Keys`srvFd
      ensures Valid() && freed == map[] && Ledger() == Recycled(old(Ledger()), outcomes) && used == old(used)
    {
      hide Sound, GoodConnects, Books.Ok, Books.Partitioned, Books.Keyed, Recycled;
      Ledger().OkParts();
      RetryAll(outcomes);
      ClearFreed();
    }

    /** m_freed.clear. */
    method ClearFreed()
      requires Working(map[])
      modifies `freed
      ensures Valid() && freed == map[] && Ledger() == old(Retrying(map[]))
    {
      hide Conn.Valid, Conn.Fresh, Books.Ok, Books.Partitioned, Books.Keyed;
      Retrying(map[]).NothingFreed();
      freed := map[];
      assert Ledger() == old(Retrying(map[]));
    }

    /** Whether the peer asked failed or closed, given what its socket will do. */
    ghost function Ends(c: Conn, fd: int, op: OpType, recv: RecvCalls, send: SendCalls): bool
      reads c
      requires c.Valid() && GoodRecv(recv) && GoodSend(send)
      reads c.cltBuf, c.srvBuf
    {
      var code :=
        if fd == c.cltFd then
          if op == Read then ReadEnd(recv, 0, c.cltBuf.Length - c.cltReadIdx)
          else WriteEnd(send, 0, c.srvReadIdx - c.srvWriteIdx)
        else
          if op == Read then ReadEnd(recv, 0, c.srvBuf.Length - c.srvReadIdx)
          else WriteEnd(send, 0, c.cltReadIdx - c.cltWriteIdx);
      op != Error && (code == IoErr || code == Closed)
    }

    /** The session after the event: exactly what recv delivers is received, or what send takes
        is sent, on the side the descriptor names, and nothing else changes. */
    ghost function Relayed(c: Conn, fd: int, op: OpType, recv: RecvCalls, send: SendCalls): Flows
      reads c, c.cltBuf, c.srvBuf
      requires c.Valid() && GoodRecv(recv) && GoodSend(send)
    {
      var f := c.Session();
      if op == Error then f
      else if fd == c.cltFd then
        if op == Read then f.(fromClt := f.fromClt + Arrives(recv, 0, c.cltBuf.Length - c.cltReadIdx))
        else
          var n := Leaves(send, 0, c.srvReadIdx - c.srvWriteIdx);
          f.(toClt := f.toClt + c.srvBuf[c.srvWriteIdx..c.srvWriteIdx + n])
      else
        if op == Read then f.(fromSrv := f.fromSrv + Arrives(recv, 0, c.srvBuf.Length - c.srvReadIdx))
        else
          var n := Leaves(send, 0, c.cltReadIdx - c.cltWriteIdx);
          f.(toSrv := f.toSrv + c.cltBuf[c.cltWriteIdx..c.cltWriteIdx + n])
    }

    /** Side by side: which bytes an event adds to which of the four flows. */
    lemma RelayedMeans(c: Conn, fd: int, recv: RecvCalls, send: SendCalls)
      requires c.Valid() && GoodRecv(recv) && GoodSend(send)
      ensures var f, read, write := c.Session(), Relayed(c, fd, Read, recv, send), Relayed(c, fd, Write, recv, send);
              if fd == c.cltFd then
                && read == f.(fromClt := f.fromClt + Arrives(recv, 0, c.cltBuf.Length - c.cltReadIdx))
                && write.toClt[..|f.toClt|] == f.toClt && write == f.(toClt := write.toClt)
                && |write.toClt| - |f.toClt| == Leaves(send, 0, c.srvReadIdx - c.srvWriteIdx)
              else
                && read == f.(fromSrv := f.fromSrv + Arrives(recv, 0, c.srvBuf.Length - c.srvReadIdx))
                && write.toSrv[..|f.toSrv|] == f.toSrv && write == f.(toSrv := write.toSrv)
                && |write.toSrv| - |f.toSrv| == Leaves(send, 0, c.cltReadIdx - c.cltWriteIdx)
    {
    }

    /** A peer is given up on exactly when its socket fails or closes during the event. */
    lemma EndsMeans(c: Conn, fd: int, recv: RecvCalls, send: SendCalls)
      requires c.Valid() && GoodRecv(recv) && GoodSend(send)
      ensures var room, left :=
                if fd == c.cltFd then c.cltBuf.Length - c.cltReadIdx else c.srvBuf.Length - c.srvReadIdx,
                if fd == c.cltFd then c.srvReadIdx - c.srvWriteIdx else c.cltReadIdx - c.cltWriteIdx;
              && (Ends(c, fd, Read, recv, send) <==>
                    exists pieces ::
                      ReadRun(recv, 0, room, pieces, 0, IoErr) || ReadRun(recv, 0, room, pieces, 0, Closed))
              && (Ends(c, fd, Write, recv, send) <==>
                    exists counts :: WriteRun(send, 0, left, counts, IoErr) || WriteRun(send, 0, left, counts, Closed))
    {
      var room := if fd == c.cltFd then c.cltBuf.Length - c.cltReadIdx else c.srvBuf.Length - c.srvReadIdx;
      var left := if fd == c.cltFd then c.srvReadIdx - c.srvWriteIdx else c.cltReadIdx - c.cltWriteIdx;
      hide ReadRun, WriteRun, ReadEnd, WriteEnd, GoodRecv, GoodSend;
      ReadBreaks(recv, room);
      WriteBreaks(send, left);
    }

    /** The relay call that descriptor fd and the event ask for. */
    method Forward(c: Conn, fd: int, op: OpType, recv: RecvCalls, send: SendCalls) returns (code: RetCode)
      requires c.Valid() && GoodRecv(recv) && GoodSend(send) && op != Error
      modifies c, c.cltBuf, c.srvBuf
      ensures c.Valid() && c.cltFd == old(c.cltFd) && c.srvFd == old(c.srvFd) && c.srvClosed == old(c.srvClosed)
      ensures (code == IoErr || code == Closed) <==> old(Ends(c, fd, op, recv, send))
      ensures c.Session() == old(Relayed(c, fd, op, recv, send))
    {
      hide Conn.Fresh, Conn.Valid;
      if fd == c.cltFd {
        if op == Read {
          code := c.ReadClt(recv);
        } else {
          code := c.WriteClt(send);
        }
      } else {
        if op == Read {
          code := c.ReadSrv(recv);
        } else {
          code := c.WriteSrv(send);
        }
      }
    }

    /** Forward, for a bound connection of the pool. */
    method Transfer(c: Conn, fd: int, op: OpType, recv: RecvCalls, send: SendCalls) returns (code: RetCode)
      requires Sound(clt, srv, used.Values) && c in clt && c in used.Values && c.Valid()
      requires GoodRecv(recv) && GoodSend(send) && op != Error
      modifies c, c.cltBuf, c.srvBuf
      ensures Sound(clt, srv, used.Values) && c.srvClosed == old(c.srvClosed)
      ensures (code == IoErr || code == Closed) <==> old(Ends(c, fd, op, recv, send))
      ensures c.Session() == old(Relayed(c, fd, op, recv, send))
    {
      hide Conn.Fresh, Conn.Valid, Ends, Relayed;
      code := Forward(c, fd, op, recv, send);
    }

    /** For every connection of the pool, bytes sent to one peer are a prefix of those received
        from the other in the session, and the missing ones are still in its buffer. */
    lemma RelaysFaithfully(c: Conn)
      requires Valid() && c in clt
      ensures c.toSrv <= c.fromClt && c.fromClt[|c.toSrv|..] == c.cltBuf[c.cltWriteIdx..c.cltReadIdx]
      ensures c.toClt <= c.fromSrv && c.fromSrv[|c.toClt|..] == c.srvBuf[c.srvWriteIdx..c.srvReadIdx]
    {
      hide Conn.Fresh, Books.Ok;
      SentIsPrefix(c);
    }

    /** The server side failed or closed: remembered until the client side is served. */
    method MarkClosed(c: Conn)
      requires Sound(clt, srv, used.Values) && c in clt && c in used.Values
      modifies c`srvClosed
      ensures Sound(clt, srv, used.Values) && c.srvClosed
    {
      hide Conn.Fresh, Conn.Valid;
      c.srvClosed := true;
    }

    /** An event on one of the two descriptors of a bound connection. A pair is given up when
        its client side fails or closes, or when its client side is served after the server
        side has failed or closed. */
    method Process(fd: int, op: OpType, recv: RecvCalls, send: SendCalls) returns (code: RetCode)
      requires Valid() && fd in used && GoodRecv(recv) && GoodSend(send)
      modifies `used, `freed, `clt, used[fd], used[fd].cltBuf, used[fd].srvBuf
      ensures Valid()
      ensures var c := old(used[fd]);
              var ends := old(Ends(used[fd], fd, op, recv, send));
              var gone := op != Error && fd == old(used[fd].cltFd) && (ends || old(used[fd].srvClosed));
              && code == (if gone then Closed else Ok)
              && Ledger() == (if gone then old(Ledger()).Free(c) else old(Ledger()))
              && (fd != old(used[fd].cltFd) ==> c.srvClosed == (ends || old(used[fd].srvClosed)))
              && (!gone ==> c.Session() == old(Relayed(used[fd], fd, op, recv, send)))
      ensures Ledger().Total() == old(Ledger()).Total()
    {
      hide Sound, Conn.Valid, GoodRecv, GoodSend, Books.Ok, Books.Total, Books.Free;
      var c := used[fd];
      assert c in used.Values;
      Ledger().BoundEntry(c);
      Knows(clt, srv, used.Values, c);
      if op == Error {
        return Ok;
      }
      Ledger().UsedKey(fd);
      var client := fd == c.cltFd;
      if !client && fd != c.srvFd {
        assert false;  // the used map files a connection under its own descriptors only
      }
      var res := Transfer(c, fd, op, recv, send);
      if client {
        if res == IoErr || res == Closed || c.srvClosed {
          FreeConn(c);
          return Closed;
        }
      } else if res == IoErr || res == Closed {
        MarkClosed(c);
      }
      return Ok;
    }
  }
}
