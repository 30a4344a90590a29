/** The used map of springsnail/mgr.cpp when process is also called for a descriptor that is
    not in it, as happens when one batch of events holds both descriptors of a pair and the
    first event gives the pair up: indexing the map then files a null under the second one. */
module NullEntries {
  import PoolBooks

  datatype Entry<T> = Null | To(c: T)

  datatype Ends = Ends(clt: int, srv: int)

  predicate Has(e: Ends, fd: int) { fd == e.clt || fd == e.srv }

  /** No descriptor belongs to two pairs, or twice to one. */
  predicate Apart<T(==)>(bound: map<T, Ends>)
  {
    && (forall c <- bound :: bound[c].clt != bound[c].srv)
    && (forall c, d | c in bound && d in bound && c != d ::
          !Has(bound[d], bound[c].clt) && !Has(bound[d], bound[c].srv))
  }

  function Descriptors<T>(bound: map<T, Ends>): set<int>
  {
    (set c <- bound :: bound[c].clt) + (set c <- bound :: bound[c].srv)
  }

  datatype Event<T> = Touch(fd: int) | Pick(c: T, ends: Ends) | Free(c: T)

  /** m: the map; bound: the pairs that are bound, and their two descriptors. */
  datatype Used<!T(==)> = Used(m: map<int, Entry<T>>, bound: map<T, Ends>)
  {
    /** A pair is only ever filed under its own descriptors, and both are keys. */
    predicate Ok()
    {
      && Apart(bound)
      && (forall c <- bound :: bound[c].clt in m && bound[c].srv in m)
      && (forall fd <- m :: m[fd].To? ==> m[fd].c in bound && Has(bound[m[fd].c], fd))
    }

    /** The pair is found under both its descriptors. */
    predicate Filed(c: T)
      requires c in bound
    {
      && bound[c].clt in m && m[bound[c].clt] == To(c)
      && bound[c].srv in m && m[bound[c].srv] == To(c)
    }

    /** The keys left over from calls of process for unknown descriptors. */
    function Stale(): (fds: set<int>)
    {
      set fd <- m | fd !in Descriptors(bound)
    }

    /** map::insert leaves an existing entry alone, a null too. */
    function Insert(fd: int, c: T): map<int, Entry<T>>
    {
      if fd in m then m else m[fd := To(c)]
    }

    /** A new pair has descriptors that are not open in another one. */
    predicate Legal(e: Event<T>)
    {
      match e
      case Touch(_) => true
      case Pick(c, ends) => c !in bound && Apart(bound[c := ends])
      case Free(c) => c in bound
    }

    function Step(e: Event<T>): Used<T>
      requires Legal(e)
    {
      match e
      case Touch(fd) => Used(if fd in m then m else m[fd := Null], bound)
      case Pick(c, ends) => Used(Used(Insert(ends.clt, c), bound).Insert(ends.srv, c), bound[c := ends])
      case Free(c) => Used(m - {bound[c].clt, bound[c].srv}, bound - {c})
    }

    predicate LegalRun(events: seq<Event<T>>)
      decreases |events|
    {
      events == [] || (Legal(events[0]) && Step(events[0]).LegalRun(events[1..]))
    }

    function Run(events: seq<Event<T>>): Used<T>
      requires LegalRun(events)
      decreases |events|
    {
      if events == [] then this else Step(events[0]).Run(events[1..])
    }

    lemma StepKeepsOk(e: Event<T>)
      requires Ok() && Legal(e)
      ensures Step(e).Ok()
    {
      if e.Pick? {
        PickKeepsOk(e.c, e.ends);
      }
    }

    lemma PickKeepsOk(c: T, ends: Ends)
      requires Ok() && Legal(Pick(c, ends))
      ensures Step(Pick(c, ends)).Ok()
    {
      var u := Step(Pick(c, ends));
      forall fd | fd in u.m && u.m[fd].To?
        ensures u.m[fd].c in u.bound && Has(u.bound[u.m[fd].c], fd)
      {
      }
    }

    /** get_used_conn_cnt is twice the number of pairs, plus the stale keys. */
    lemma Counts()
      requires Ok()
      ensures |m| == 2 * |bound| + |Stale()|
    {
      hide Descriptors, Apart, Stale;
      OpenOrStale();
      DescriptorCount(bound);
    }

    lemma OpenOrStale()
      requires Ok()
      ensures Apart(bound)
      ensures m.Keys == Descriptors(bound) + Stale() && Descriptors(bound) !! Stale()
    {
      hide Apart;
      assert forall fd <- Descriptors(bound) :: fd in m;
    }

    /** A new pair is found under both its descriptors if and only if neither is a stale key. */
    lemma PickFiles(c: T, ends: Ends)
      requires Ok() && Legal(Pick(c, ends))
      ensures Step(Pick(c, ends)).Filed(c) <==> ends.clt !in Stale() && ends.srv !in Stale()
    {
      assert c in bound[c := ends];
      forall fd | Has(ends, fd)
        ensures fd !in Descriptors(bound)
      {
        assert forall d <- bound :: bound[c := ends][d] == bound[d];
      }
    }

    /** And that is settled for as long as the pair is bound, whatever else happens. */
    lemma {:induction false} FiledForLife(events: seq<Event<T>>, c: T)
      requires Ok() && LegalRun(events) && c in bound && Free(c) !in events
      ensures c in Run(events).bound && (Run(events).Filed(c) <==> Filed(c))
      decreases |events|
    {
      if events != [] {
        var e := events[0];
        assert e in events && Free(c) !in events[1..];
        StepKeepsOk(e);
        OneStep(e, c);
        Step(e).FiledForLife(events[1..], c);
      }
    }

    /** process is only called for descriptors that are keys of the map at that point. */
    predicate OnlyKeysTouched(events: seq<Event<T>>)
      requires LegalRun(events)
      decreases |events|
    {
      events != [] ==> (events[0].Touch? ==> events[0].fd in m) && Step(events[0]).OnlyKeysTouched(events[1..])
    }

    /** Then no key is stale and every pair is found under both its descriptors. */
    lemma {:induction false} NeverStale(events: seq<Event<T>>)
      requires Ok() && Stale() == {} && (forall c <- bound :: Filed(c))
      requires LegalRun(events) && OnlyKeysTouched(events)
      ensures Run(events).Stale() == {} && forall c <- Run(events).bound :: Run(events).Filed(c)
      decreases |events|
    {
      if events != [] {
        var e := events[0];
        StepKeepsOk(e);
        NothingStale(e);
        Step(e).NeverStale(events[1..]);
      }
    }

    /** One event: a touch makes a key stale unless it belongs to a pair, a new pair takes its
        descriptors over, and nothing else changes. */
    lemma StaleStep(e: Event<T>)
      requires Ok() && Legal(e)
      ensures forall fd :: fd in Step(e).Stale() <==>
        (fd in Stale() && !(e.Pick? && Has(e.ends, fd))) || (e == Touch(fd) && fd !in Descriptors(bound))
    {
      hide Descriptors, Apart;
      var u := Step(e);
      if e.Pick? {
        PickDescriptors(bound, e.c, e.ends);
        assert forall fd :: fd in u.m <==> fd in m || Has(e.ends, fd);
      } else if e.Free? {
        OnePair(bound, bound - {e.c}, e.c);
        assert forall fd :: fd in u.m <==> fd in m && !Has(bound[e.c], fd);
      } else {
        assert forall fd :: fd in u.m <==> fd in m || fd == e.fd;
      }
    }

    /** At some point of the run fd was touched while it belonged to no pair, and no new pair
        has taken it over since. */
    predicate LeftOver(events: seq<Event<T>>, fd: int)
      requires LegalRun(events)
      decreases |events|
    {
      events != [] &&
      ((events[0] == Touch(fd) && fd !in Descriptors(bound) && NotPicked(events[1..], fd))
       || Step(events[0]).LeftOver(events[1..], fd))
    }

    /** The stale keys of a run are exactly those, and the stale ones it began with that no new
        pair has taken over. */
    lemma {:induction false} StaleExactly(events: seq<Event<T>>, fd: int)
      requires Ok() && LegalRun(events)
      ensures fd in Run(events).Stale() <==> (fd in Stale() && NotPicked(events, fd)) || LeftOver(events, fd)
      decreases |events|
    {
      if events != [] {
        var e := events[0];
        StepKeepsOk(e);
        StaleStep(e);
        Step(e).StaleExactly(events[1..], fd);
        hide Descriptors, Used.Stale;
        assert NotPicked(events, fd) <==> !(e.Pick? && Has(e.ends, fd)) && NotPicked(events[1..], fd);
      }
    }

    lemma NothingStale(e: Event<T>)
      requires Ok() && Stale() == {} && (forall c <- bound :: Filed(c)) && Legal(e) && (e.Touch? ==> e.fd in m)
      ensures Step(e).Stale() == {} && forall c <- Step(e).bound :: Step(e).Filed(c)
    {
      forall c | c in bound && e != Free(c)
        ensures c in Step(e).bound && Step(e).Filed(c)
      {
        OneStep(e, c);
      }
      if e.Pick? {
        PickFiles(e.c, e.ends);
      }
      var u := Step(e);
      forall fd | fd in u.m
        ensures fd in Descriptors(u.bound)
      {
        if fd in m {
          assert fd !in Stale();
        }
      }
    }

    lemma OneStep(e: Event<T>, c: T)
      requires Ok() && Legal(e) && c in bound && e != Free(c)
      ensures c in Step(e).bound && Step(e).bound[c] == bound[c] && (Step(e).Filed(c) <==> Filed(c))
    {
    }
  }

  /** No new pair gets the descriptor fd. */
  predicate NotPicked<T(==)>(events: seq<Event<T>>, fd: int)
  {
    forall i | 0 <= i < |events| :: !(events[i].Pick? && Has(events[i].ends, fd))
  }

  lemma PickDescriptors<T>(bound: map<T, Ends>, c: T, ends: Ends)
    requires c !in bound
    ensures forall fd :: fd in Descriptors(bound[c := ends]) <==> fd in Descriptors(bound) || Has(ends, fd)
  {
    var more := bound[c := ends];
    forall fd | fd in Descriptors(bound)
      ensures fd in Descriptors(more)
    {
      assert forall d <- bound :: more[d] == bound[d];
    }
    assert more[c] == ends;
  }

  /** One batch holds both descriptors 5 and 6 of a pair; the event on 5 gives the pair up, the
      one on 6 files a null. When 6 is handed out again for the reconnected server, the next
      pair is not found under it. */
  lemma LostPair<T>(c: T)
    ensures var u := Used(map[5 := To(c), 6 := To(c)], map[c := Ends(5, 6)]);
            && u.Ok() && u.Filed(c) && u.Legal(Free(c))
            && var freed := u.Step(Free(c)).Step(Touch(6));
            freed.Stale() == {6} && freed.Legal(Pick(c, Ends(7, 6))) && !freed.Step(Pick(c, Ends(7, 6))).Filed(c)
  {
    var u := Used(map[5 := To(c), 6 := To(c)], map[c := Ends(5, 6)]);
    var freed := u.Step(Free(c)).Step(Touch(6));
    assert freed.m == map[6 := Null];
    assert freed.bound == map[];
  }

  /** The two descriptors of one pair, and those of all others. */
  lemma OnePair<T>(bound: map<T, Ends>, rest: map<T, Ends>, c: T)
    requires Apart(bound) && c in bound && rest == bound - {c}
    ensures Apart(rest) && |rest| == |bound| - 1
    ensures forall fd :: fd in Descriptors(bound) <==> fd in Descriptors(rest) || Has(bound[c], fd)
    ensures forall fd | Has(bound[c], fd) :: fd !in Descriptors(rest)
  {
    assert rest.Keys == bound.Keys - {c};
    forall fd | fd in Descriptors(bound) && !Has(bound[c], fd)
      ensures fd in Descriptors(rest)
    {
      if d :| d in bound && bound[d].clt == fd {
        assert d in rest && rest[d].clt == fd;
      } else if d :| d in bound && bound[d].srv == fd {
        assert d in rest && rest[d].srv == fd;
      }
    }
  }

  lemma {:induction false} DescriptorCount<T>(bound: map<T, Ends>)
    requires Apart(bound)
    ensures |Descriptors(bound)| == 2 * |bound|
    decreases |bound|
  {
    if bound.Keys == {} {
      assert bound == map[];
    } else {
      var c := PoolBooks.PickOne(bound.Keys);
      var rest := bound - {c};
      OnePair(bound, rest, c);
      DescriptorCount(rest);
      hide Descriptors;
      assert Descriptors(bound) == Descriptors(rest) + {bound[c].clt, bound[c].srv};
      assert Descriptors(rest) !! {bound[c].clt, bound[c].srv};
      assert bound[c].clt != bound[c].srv;
    }
  }

  // ---------- the ledger of the manager, as a map with entries ----------

  function Image<T>(b: PoolBooks.Books<T>): Used<T>
    requires b.Ok()
  {
    Used(map fd <- b.used :: To(b.used[fd]), map c <- b.used.Values :: Ends(b.clt[c], b.srv[c]))
  }

  /** A bound connection is filed under its two descriptors, which differ. */
  lemma FiledInLedger<T>(b: PoolBooks.Books<T>, c: T)
    requires b.Ok() && c in b.used.Values
    ensures c in b.clt && c in b.srv && b.clt[c] != b.srv[c]
    ensures b.clt[c] in b.used && b.used[b.clt[c]] == c && b.srv[c] in b.used && b.used[b.srv[c]] == c
  {
  }

  /** While the ledger is in order, no key is stale and every pair is filed. */
  lemma LedgerIsFiled<T>(b: PoolBooks.Books<T>)
    requires b.Ok()
    ensures Image(b).Ok() && Image(b).Stale() == {} && forall c <- Image(b).bound :: Image(b).Filed(c)
  {
    hide PoolBooks.Books.Partitioned, PoolBooks.Books.Keyed, PoolBooks.Books.FreedApart;
    var u := Image(b);
    forall c | c in u.bound
      ensures u.bound[c].clt != u.bound[c].srv && u.Filed(c)
    {
      FiledInLedger(b, c);
    }
    forall fd | fd in u.m
      ensures u.m[fd].To? && u.m[fd].c in u.bound && Has(u.bound[u.m[fd].c], fd) && fd in Descriptors(u.bound)
    {
      b.UsedKey(fd);
      assert b.used[fd] in b.used.Values;
    }
  }

  /** Binding a pair in the ledger is picking it here. */
  lemma BindIsPick<T>(b: PoolBooks.Books<T>, cltFd: int, k: int)
    requires b.Ok() && b.Unused(cltFd) && k in b.conns
    ensures b.Bind(cltFd, k).Ok()
    ensures var e := Pick(b.conns[k], Ends(cltFd, k));
            Image(b).Legal(e) && Image(b.Bind(cltFd, k)) == Image(b).Step(e)
  {
    hide PoolBooks.Books.Partitioned, PoolBooks.Books.Keyed, PoolBooks.Books.FreedApart, PoolBooks.Books.Total, Apart;
    b.BindKeepsOk(cltFd, k);
    b.IdleEntry(k);
    var c := b.conns[k];
    NotBoundYet(b, k);
    PoolBooks.InsertEntry(b.used, cltFd, c);
    PoolBooks.InsertEntry(b.used[cltFd := c], k, c);
    PickIsLegal(b, cltFd, k);
    var u, v := Image(b.Bind(cltFd, k)), Image(b).Step(Pick(c, Ends(cltFd, k)));
    assert forall fd :: fd in u.m <==> fd in v.m;
    assert forall fd <- u.m :: u.m[fd] == v.m[fd];
    assert forall d :: d in u.bound <==> d in v.bound;
    assert forall d <- u.bound :: u.bound[d] == v.bound[d];
  }

  lemma NotBoundYet<T>(b: PoolBooks.Books<T>, k: int)
    requires b.Ok() && k in b.conns
    ensures b.conns[k] !in b.used.Values
  {
    assert b.conns[k] in b.conns.Values;
  }

  lemma PickIsLegal<T>(b: PoolBooks.Books<T>, cltFd: int, k: int)
    requires b.Ok() && b.Unused(cltFd) && k in b.conns
    ensures Image(b).Legal(Pick(b.conns[k], Ends(cltFd, k)))
  {
    b.IdleEntry(k);
    LedgerIsFiled(b);
    var bound := Image(b).bound;
    assert b.conns[k] !in b.used.Values;
    forall c | c in bound
      ensures !Has(bound[c], cltFd) && !Has(bound[c], k)
    {
      assert Image(b).Filed(c);
    }
  }

  /** Freeing one is freeing it here. */
  lemma FreeIsFree<T>(b: PoolBooks.Books<T>, c: T)
    requires b.Ok() && c in b.used.Values
    ensures b.Free(c).Ok() && Image(b).Legal(Free(c)) && Image(b.Free(c)) == Image(b).Step(Free(c))
  {
    hide PoolBooks.Books.Partitioned, PoolBooks.Books.Keyed, PoolBooks.Books.FreedApart, PoolBooks.Books.Total, Apart;
    b.BoundEntry(c);
    b.FreeKeepsOk(c);
    b.FreeValues(c);
    var u, v := Image(b.Free(c)), Image(b).Step(Free(c));
    assert forall fd :: fd in u.m <==> fd in v.m;
    assert forall fd <- u.m :: u.m[fd] == v.m[fd];
    assert forall d :: d in u.bound <==> d in v.bound;
    assert forall d <- u.bound :: u.bound[d] == v.bound[d];
  }
}
