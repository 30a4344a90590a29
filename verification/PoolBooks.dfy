/** The book-keeping of springsnail/mgr.cpp without the objects: which map holds which
    connection, and the two descriptors each connection knows. */
module PoolBooks {

  // ---------- counting maps ----------

  lemma PickOne<T>(s: set<T>) returns (x: T)
    requires s != {}
    ensures x in s
  {
    x :| x in s;
  }

  lemma KeyOf<K, V>(m: map<K, V>, v: V) returns (k: K)
    requires v in m.Values
    ensures k in m && m[k] == v
  {
    k :| k in m && m[k] == v;
  }

  /** A map whose values know their key has as many values as keys. */
  lemma {:induction false} OneKeyEach<T>(m: map<int, T>, key: map<T, int>)
    requires forall k <- m :: m[k] in key && key[m[k]] == k
    ensures |m.Values| == |m|
  {
    if m.Keys == {} {
      assert m.Values == {};
    } else {
      var k := PickOne(m.Keys);
      var rest := m - {k};
      OneKeyEach(rest, key);
      assert m.Values == rest.Values + {m[k]} by {
        forall v | v in m.Values
          ensures v in rest.Values + {m[k]}
        {
          var k' := KeyOf(m, v);
          if k' != k { assert k' in rest && rest[k'] == v; }
        }
      }
      assert m[k] !in rest.Values;
      assert |m| == |rest| + 1 by { assert m.Keys == rest.Keys + {k}; }
    }
  }

  /** Every value of m has exactly the two keys a and b. */
  predicate TwoKeys<T(==)>(m: map<int, T>, a: map<T, int>, b: map<T, int>)
  {
    && (forall v <- m.Values :: v in a && v in b && a[v] != b[v])
    && (forall v <- m.Values :: a[v] in m && m[a[v]] == v && b[v] in m && m[b[v]] == v)
    && (forall k <- m :: k == a[m[k]] || k == b[m[k]])
  }

  lemma {:induction false} TwoKeysEach<T>(m: map<int, T>, a: map<T, int>, b: map<T, int>)
    requires TwoKeys(m, a, b)
    ensures |m| == 2 * |m.Values|
  {
    if m.Keys == {} {
      assert m.Values == {};
    } else {
      var k := PickOne(m.Keys);
      var v := m[k];
      assert v in m.Values;
      RemovePair(m, a, b, v);
      TwoKeysEach(m - {a[v], b[v]}, a, b);
    }
  }

  lemma RemovePair<T>(m: map<int, T>, a: map<T, int>, b: map<T, int>, v: T)
    requires TwoKeys(m, a, b) && v in m.Values
    ensures var rest := m - {a[v], b[v]};
            TwoKeys(rest, a, b) && |m| == |rest| + 2 && rest.Values == m.Values - {v}
  {
    var rest := m - {a[v], b[v]};
    forall w | w in rest.Values
      ensures w != v && w in m.Values && a[w] in rest && b[w] in rest
    {
      var k := KeyOf(rest, w);
      assert m[k] == w;
    }
    forall w | w in m.Values - {v}
      ensures w in rest.Values
    {
      assert a[w] in rest && rest[a[w]] == w;
    }
    assert rest.Values == m.Values - {v};
    assert rest.Keys == m.Keys - {a[v], b[v]};
    assert |m.Keys| == |rest.Keys| + 2 by { assert m.Keys == rest.Keys + {a[v], b[v]}; }
  }

  lemma RemoveEntry<T>(m: map<int, T>, k: int)
    requires k in m && forall k' <- m :: m[k'] == m[k] ==> k' == k
    ensures (m - {k}).Values == m.Values - {m[k]}
  {
    forall v | v in m.Values && v != m[k]
      ensures v in (m - {k}).Values
    {
      var k' := KeyOf(m, v);
      assert k' in m - {k} && (m - {k})[k'] == v;
    }
    forall v | v in (m - {k}).Values
      ensures v in m.Values - {m[k]}
    {
      var k' := KeyOf(m - {k}, v);
      assert m[k'] == v;
    }
  }

  lemma InsertEntry<T>(m: map<int, T>, k: int, v: T)
    requires k in m ==> m[k] == v
    ensures m[k := v].Values == m.Values + {v}
  {
    var m' := m[k := v];
    assert k in m' && m'[k] == v;
    forall w | w in m.Values
      ensures w in m'.Values
    {
      var k' := KeyOf(m, w);
      assert k' in m' && m'[k'] == w;
    }
  }

  /** map::begin is the entry with the smallest key. */
  predicate IsFirst<T>(m: map<int, T>, k: int)
  {
    k in m && forall k' <- m :: k <= k'
  }

  lemma {:induction false} HasFirst<T>(m: map<int, T>) returns (k: int)
    requires m != map[]
    ensures IsFirst(m, k)
  {
    assert m.Keys != {};
    var k0 := PickOne(m.Keys);
    var rest := m - {k0};
    assert m.Keys == rest.Keys + {k0};
    if rest.Keys == {} {
      k := k0;
    } else {
      k := HasFirst(rest);
      k := if k0 < k then k0 else k;
    }
  }

  /** map::begin. */
  function First<T>(m: map<int, T>): (k: int)
    requires m != map[]
    ensures IsFirst(m, k) && k in m
  {
    FirstExists(m);
    var k :| IsFirst(m, k);
    k
  }

  lemma FirstExists<T>(m: map<int, T>)
    requires m != map[]
    ensures exists k :: IsFirst(m, k)
  {
    var k := HasFirst(m);
  }

  /** map::insert leaves an existing entry alone. */
  function Insert<T>(m: map<int, T>, k: int, v: T): map<int, T>
  {
    if k in m then m else m[k := v]
  }

  /** Moving one member between the parts of a partition. */
  lemma MoveMember<T>(a: set<T>, b: set<T>, c: set<T>, v: T)
    requires v in b && a !! b && a !! c && b !! c
    ensures a + b + c == a + (b - {v}) + (c + {v})
    ensures a !! (b - {v}) && a !! (c + {v}) && (b - {v}) !! (c + {v})
  {
  }

  lemma MoveFirst<T>(a: set<T>, b: set<T>, c: set<T>, v: T)
    requires v in c && a !! b && a !! c && b !! c
    ensures a + b + c == (a + {v}) + b + (c - {v})
    ensures (a + {v}) !! b && (a + {v}) !! (c - {v}) && b !! (c - {v})
  {
  }

  lemma DropMember<T>(a: set<T>, b: set<T>, c: set<T>, v: T)
    requires v in c && a !! b && a !! c && b !! c
    ensures (a + b + c) - {v} == a + b + (c - {v})
    ensures b !! (c - {v}) && a !! (c - {v})
  {
  }

  /** conns: idle; used: bound to a client; freed: closed, to be reconnected. */
  datatype Books<!T(==)> = Books(
    conns: map<int, T>,
    used: map<int, T>,
    freed: map<int, T>,
    clt: map<T, int>,
    srv: map<T, int>)
  {
    /** Every surviving connection is in exactly one of the three maps. */
    predicate Partitioned()
    {
      && clt.Keys == srv.Keys == conns.Values + used.Values + freed.Values
      && conns.Values !! used.Values && conns.Values !! freed.Values && used.Values !! freed.Values
    }

    /** Idle and freed connections are filed under their server descriptor. */
    predicate IdleKeyed(m: map<int, T>)
    {
      forall fd <- m :: m[fd] in srv && srv[m[fd]] == fd && m[fd] in clt && clt[m[fd]] == -1
    }

    /** Bound connections are filed under both descriptors, and no descriptor is open twice. */
    predicate Keyed()
    {
      && IdleKeyed(conns) && IdleKeyed(freed)
      && TwoKeys(used, clt, srv)
      && conns.Keys !! used.Keys
    }

    /** No server descriptor of an open connection is still listed as freed. */
    predicate FreedApart()
    {
      conns.Keys !! freed.Keys && forall c <- used.Values :: c in srv && srv[c] !in freed
    }

    predicate Ok() { Partitioned() && Keyed() && FreedApart() }

    function Total(): int { |conns| + |used| / 2 + |freed| }

    predicate Unused(fd: int) { fd >= 0 && fd !in conns && fd !in used }

    /** pick_conn for client cltFd takes the idle entry k; init_clt follows. */
    function Bind(cltFd: int, k: int): Books<T>
      requires k in conns
    {
      var c := conns[k];
      Books(conns - {k}, used[cltFd := c][k := c], freed, clt[c := cltFd], srv)
    }

    /** free_conn closes both descriptors and files the connection for reconnection. */
    function Free(c: T): Books<T>
      requires c in clt && c in srv
    {
      Books(conns, used - {clt[c], srv[c]}, freed[srv[c] := c], clt[c := -1], srv)
    }

    /** One turn of recycle_conns: the freed entry k got descriptor fd, or none. */
    function Reconnect(k: int, fd: int): Books<T>
      requires k in freed
    {
      var c := freed[k];
      if fd < 0 then Books(conns, used, freed - {k}, clt - {c}, srv - {c})
      else Books(conns[fd := c], used, freed - {k}, clt, srv[c := fd])
    }

    /** The maps account for every surviving connection once; the used map has two entries
        for each bound pair. */
    lemma CountsPool()
      requires Partitioned() && Keyed()
      ensures Total() == |conns| + |used| / 2 + |freed| == |clt|
      ensures |used| == 2 * |used.Values|
    {
      OneKeyEach(conns, srv);
      OneKeyEach(freed, srv);
      TwoKeysEach(used, clt, srv);
      assert |clt.Keys| == |conns.Values + used.Values| + |freed.Values|;
    }

    /** All connections have different server descriptors. */
    lemma ServersDistinct(c: T, d: T)
      requires Ok() && c in srv && d in srv && c != d
      ensures srv[c] != srv[d]
    {
      Located(c);
      Located(d);
    }

    /** Where a connection is filed under its server descriptor. */
    lemma Located(c: T)
      requires Ok() && c in srv
      ensures (srv[c] in conns && conns[srv[c]] == c) || (srv[c] in used && used[srv[c]] == c && srv[c] !in freed)
        || (srv[c] in freed && freed[srv[c]] == c)
    {
      if c in conns.Values {
        var k := KeyOf(conns, c);
      } else if c in freed.Values {
        var k := KeyOf(freed, c);
      }
    }

    lemma Disjoint()
      requires Ok()
      ensures conns.Keys !! used.Keys
    {
    }

    /** An idle connection is filed under its server descriptor, which is not in use. */
    lemma IdleEntry(k: int)
      requires Ok() && k in conns
      ensures conns[k] in clt && conns[k] in srv && srv[conns[k]] == k && k !in used
    {
      assert conns[k] in conns.Values;
    }

    lemma FreedEntry(k: int)
      requires Partitioned() && k in freed
      ensures freed[k] in clt && freed[k] in srv
    {
      assert freed[k] in freed.Values;
    }

    lemma UsedKey(fd: int)
      requires Ok() && fd in used
      ensures used[fd] in clt && used[fd] in srv && (fd == clt[used[fd]] || fd == srv[used[fd]])
    {
      assert used[fd] in used.Values;
    }

    lemma OkParts()
      requires Ok()
      ensures Partitioned() && Keyed()
    {
    }

    lemma NothingFreed()
      requires Partitioned() && Keyed() && freed == map[]
      ensures Ok()
    {
    }

    /** A bound connection is known, and its server descriptor is not listed as freed. */
    lemma BoundEntry(c: T)
      requires Ok() && c in used.Values
      ensures c in clt && c in srv && srv[c] !in freed
    {
    }

    /** The constructor of mgr adds a new idle connection. */
    function AddIdle(fd: int, c: T): Books<T>
    {
      Books(conns[fd := c], used, freed, clt[c := -1], srv[c := fd])
    }

    lemma AddIdleKeepsOk(fd: int, c: T)
      requires Ok() && used == map[] && freed == map[] && fd !in conns && c !in clt
      ensures AddIdle(fd, c).Ok()
    {
      InsertEntry(conns, fd, c);
    }

    lemma BindPartitioned(cltFd: int, k: int)
      requires Partitioned() && Keyed() && Unused(cltFd) && k in conns
      ensures Bind(cltFd, k).Partitioned() && |Bind(cltFd, k).clt| == |clt|
    {
      var c := conns[k];
      RemoveEntry(conns, k);
      InsertEntry(used, cltFd, c);
      InsertEntry(used[cltFd := c], k, c);
      assert clt[c := cltFd].Keys == clt.Keys;
    }

    lemma BindKeyed(cltFd: int, k: int)
      requires Ok() && Unused(cltFd) && k in conns
      ensures Bind(cltFd, k).Keyed() && Bind(cltFd, k).FreedApart()
    {
      var c, b := conns[k], Bind(cltFd, k);
      assert TwoKeys(b.used, b.clt, b.srv);
    }

    lemma BindKeepsOk(cltFd: int, k: int)
      requires Ok() && Unused(cltFd) && k in conns
      ensures Bind(cltFd, k).Ok() && Bind(cltFd, k).Total() == Total()
    {
      BindPartitioned(cltFd, k);
      BindKeyed(cltFd, k);
      hide Partitioned, Keyed, FreedApart, Bind, Total;
      CountsPool();
      Bind(cltFd, k).CountsPool();
    }

    lemma FreeValues(c: T)
      requires Ok() && c in used.Values
      ensures Free(c).used.Values == used.Values - {c} && Free(c).freed.Values == freed.Values + {c}
    {
      RemovePair(used, clt, srv, c);
      InsertEntry(freed, srv[c], c);
    }

    lemma FreePartitioned(c: T)
      requires Ok() && c in used.Values
      ensures Free(c).Partitioned() && |Free(c).clt| == |clt|
    {
      FreeValues(c);
      MoveMember(conns.Values, used.Values, freed.Values, c);
      assert clt[c := -1].Keys == clt.Keys;
      hide FreedApart, IdleKeyed, TwoKeys, Keyed;
    }

    lemma FreeIdleKeyed(c: T)
      requires Ok() && c in used.Values
      ensures Free(c).IdleKeyed(conns) && Free(c).IdleKeyed(freed[srv[c] := c])
    {
      hide FreedApart, TwoKeys;
    }

    lemma FreeUsed(c: T)
      requires Ok() && c in used.Values
      ensures TwoKeys(Free(c).used, clt[c := -1], srv)
      ensures forall d <- Free(c).used.Values :: d in used.Values && srv[d] != srv[c]
    {
      hide FreedApart, IdleKeyed, Partitioned;
      RemovePair(used, clt, srv, c);
    }

    lemma FreeKeyed(c: T)
      requires Ok() && c in used.Values
      ensures Free(c).Keyed() && Free(c).FreedApart()
    {
      FreeIdleKeyed(c);
      FreeUsed(c);
      hide TwoKeys, IdleKeyed, Partitioned;
    }

    lemma FreeKeepsOk(c: T)
      requires Ok() && c in used.Values
      ensures Free(c).Ok() && Free(c).Total() == Total()
    {
      FreePartitioned(c);
      FreeKeyed(c);
      hide Partitioned, Keyed, FreedApart, Free, Total;
      CountsPool();
      Free(c).CountsPool();
    }

    lemma ReconnectPartitioned(k: int, fd: int)
      requires Partitioned() && Keyed() && k in freed
      requires fd < 0 || Unused(fd)
      ensures var b := Reconnect(k, fd);
              b.Partitioned() && |b.clt| == |clt| - if fd < 0 then 1 else 0
    {
      RemoveEntry(freed, k);
      if fd < 0 {
        ReconnectFails(k, fd);
      } else {
        ReconnectSucceeds(k, fd);
      }
      hide *;
    }

    lemma ReconnectSucceeds(k: int, fd: int)
      requires Partitioned() && k in freed && fd >= 0 && fd !in conns
      requires (freed - {k}).Values == freed.Values - {freed[k]}
      ensures var b := Reconnect(k, fd);
              b.Partitioned() && |b.clt| == |clt|
    {
      var c := freed[k];
      InsertEntry(conns, fd, c);
      MoveFirst(conns.Values, used.Values, freed.Values, c);
      assert srv[c := fd].Keys == srv.Keys;
    }

    lemma ReconnectFails(k: int, fd: int)
      requires Partitioned() && k in freed && fd < 0
      requires (freed - {k}).Values == freed.Values - {freed[k]}
      ensures var b := Reconnect(k, fd);
              b.Partitioned() && |b.clt| == |clt| - 1
    {
      var c := freed[k];
      DropMember(conns.Values, used.Values, freed.Values, c);
      assert (clt - {c}).Keys == clt.Keys - {c};
    }

    lemma ReconnectKeyed(k: int, fd: int)
      requires Partitioned() && Keyed() && k in freed
      requires fd < 0 || Unused(fd)
      ensures Reconnect(k, fd).Keyed()
    {
      var b := Reconnect(k, fd);
      assert TwoKeys(b.used, b.clt, b.srv);
    }

    lemma ReconnectKeeps(k: int, fd: int)
      requires Partitioned() && Keyed() && k in freed
      requires fd < 0 || Unused(fd)
      ensures var b := Reconnect(k, fd);
              b.Partitioned() && b.Keyed() && b.Total() == Total() - if fd < 0 then 1 else 0
    {
      ReconnectPartitioned(k, fd);
      ReconnectKeyed(k, fd);
      hide Partitioned, Keyed, Reconnect, Total;
      CountsPool();
      Reconnect(k, fd).CountsPool();
    }
  }
}
