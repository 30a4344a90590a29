/** The timer list of 11/11-2lst_timer.h: a doubly linked list kept in order of expiry. */
module SortedTimerList {
  import opened Sequences

  class UtilTimer {
    var expire: int
    var prev: UtilTimer?
    var next: UtilTimer?

    constructor (e: int)
      ensures expire == e && prev == null && next == null
    {
      expire, prev, next := e, null, null;
    }
  }

  /** The deadlines along the list. */
  function Expires(nodes: seq<UtilTimer>): (es: seq<int>)
    reads nodes`expire
    ensures |es| == |nodes| && forall i | 0 <= i < |es| :: es[i] == nodes[i].expire
  {
    if nodes == [] then [] else [nodes[0].expire] + Expires(nodes[1..])
  }

  predicate Ascending(es: seq<int>)
  {
    forall i, j | 0 <= i < j < |es| :: es[i] <= es[j]
  }

  /** Where a new deadline goes: after every deadline that is not later. */
  function Slot(es: seq<int>, e: int): (k: nat)
    ensures k <= |es| && (k < |es| ==> e < es[k])
    ensures forall i | 0 <= i < k :: es[i] <= e
  {
    if es == [] || e < es[0] then 0 else 1 + Slot(es[1..], e)
  }

  /** Stable insertion keeps an ascending sequence ascending. */
  lemma InsertKeepsAscending(es: seq<int>, e: int)
    requires Ascending(es)
    ensures Ascending(InsertAt(es, Slot(es, e), e))
  {
  }

  lemma RemoveKeepsAscending(es: seq<int>, k: nat)
    requires Ascending(es) && k < |es|
    ensures Ascending(RemoveAt(es, k))
  {
  }

  /** There is only one place between the deadlines that are not later and the later ones. */
  lemma SlotIsUnique(es: seq<int>, e: int, k: nat)
    requires k <= |es| && (forall i | 0 <= i < k :: es[i] <= e) && (k < |es| ==> e < es[k])
    requires Ascending(es)
    ensures k == Slot(es, e)
  {
  }

  lemma {:induction false} ExpiresAfterInsert(nodes: seq<UtilTimer>, k: nat, timer: UtilTimer)
    requires k <= |nodes|
    ensures Expires(InsertAt(nodes, k, timer)) == InsertAt(Expires(nodes), k, timer.expire)
  {
  }

  lemma {:induction false} ExpiresAfterRemove(nodes: seq<UtilTimer>, k: nat)
    requires k < |nodes|
    ensures Expires(RemoveAt(nodes, k)) == RemoveAt(Expires(nodes), k)
  {
  }

  lemma ExpiresSuffix(nodes: seq<UtilTimer>, n: nat)
    requires n <= |nodes| && Ascending(Expires(nodes))
    ensures Ascending(Expires(nodes[n..]))
  {
    hide Expires;
    assert Expires(nodes[n..]) == Expires(nodes)[n..];
  }

  lemma DropFirst(nodes: seq<UtilTimer>)
    requires nodes != []
    ensures RemoveAt(nodes, 0) == nodes[1..]
  {
  }

  /** Inserting at the slot of its deadline keeps a list in order. */
  lemma InsertedInOrder(nodes: seq<UtilTimer>, k: nat, timer: UtilTimer)
    requires k <= |nodes| && Ascending(Expires(nodes))
    requires forall i | 0 <= i < k :: nodes[i].expire <= timer.expire
    requires k < |nodes| ==> timer.expire < nodes[k].expire
    ensures k == Slot(Expires(nodes), timer.expire)
    ensures Ascending(Expires(InsertAt(nodes, k, timer)))
  {
    SlotIsUnique(Expires(nodes), timer.expire, k);
    ExpiresAfterInsert(nodes, k, timer);
    InsertKeepsAscending(Expires(nodes), timer.expire);
  }

  /** A deadline may have grown: the others are in order, and those before it are not later. */
  predicate Grown(es: seq<int>, i: nat)
  {
    && i < |es| && Ascending(RemoveAt(es, i))
    && forall j | 0 <= j < i :: es[j] <= es[i]
  }

  /** That is what extending one deadline of a list in order leads to. */
  lemma ExtendingIsGrowing(es: seq<int>, i: nat, e: int)
    requires i < |es| && Ascending(es) && es[i] <= e
    ensures Grown(es[i := e], i)
  {
    RemoveKeepsAscending(es, i);
    assert RemoveAt(es[i := e], i) == RemoveAt(es, i);
  }

  /** Removing a node and inserting it again at the slot of its deadline. */
  function Reinserted(nodes: seq<UtilTimer>, es: seq<int>, i: nat): seq<UtilTimer>
    requires i < |nodes| == |es|
  {
    InsertAt(RemoveAt(nodes, i), Slot(RemoveAt(es, i), es[i]), nodes[i])
  }

  /** Moving the node at i back to the first place from i on where a later one follows. */
  function MovedBack(nodes: seq<UtilTimer>, es: seq<int>, i: nat): seq<UtilTimer>
    requires i < |nodes| == |es|
  {
    InsertAt(RemoveAt(nodes, i), i + Slot(RemoveAt(es, i)[i..], es[i]), nodes[i])
  }

  lemma InsertThenRemove(es: seq<int>, k: nat, e: int)
    requires k <= |es|
    ensures RemoveAt(InsertAt(es, k, e), k) == es
  {
  }

  /** Moving back puts the deadlines in order if and only if the one at i had only grown. */
  lemma GrownExactly(es: seq<int>, i: nat, k: nat)
    requires i < |es| && i <= k <= |RemoveAt(es, i)|
    requires forall j | i <= j < k :: RemoveAt(es, i)[j] <= es[i]
    requires k < |es| - 1 ==> es[i] < RemoveAt(es, i)[k]
    ensures Ascending(InsertAt(RemoveAt(es, i), k, es[i])) <==> Grown(es, i)
    ensures Grown(es, i) ==> k == Slot(RemoveAt(es, i), es[i])
  {
    var rest := RemoveAt(es, i);
    var moved := InsertAt(rest, k, es[i]);
    InsertThenRemove(rest, k, es[i]);
    hide RemoveAt, InsertAt, Slot;
    if Grown(es, i) {
      SlotIsUnique(rest, es[i], k);
      InsertKeepsAscending(rest, es[i]);
    }
    if Ascending(moved) {
      RemoveKeepsAscending(moved, k);
      assert forall j | 0 <= j < i :: es[j] == moved[j] && moved[j] <= moved[k];
    }
  }

  lemma MovedExactly(nodes: seq<UtilTimer>, i: nat, k: nat)
    requires i < |nodes| && i <= k <= |RemoveAt(nodes, i)|
    requires forall j | i <= j < k :: RemoveAt(nodes, i)[j].expire <= nodes[i].expire
    requires k < |nodes| - 1 ==> nodes[i].expire < RemoveAt(nodes, i)[k].expire
    ensures var r, es := InsertAt(RemoveAt(nodes, i), k, nodes[i]), Expires(nodes);
            && r == MovedBack(nodes, es, i)
            && (Ascending(Expires(r)) <==> Grown(es, i))
            && (Grown(es, i) ==> r == Reinserted(nodes, es, i))
  {
    hide RemoveAt, InsertAt, Slot, Expires, Ascending;
    var rest, es := RemoveAt(nodes, i), Expires(nodes);
    ExpiresAfterRemove(nodes, i);
    ExpiresAfterInsert(rest, k, nodes[i]);
    GrownExactly(es, i, k);
    FirstLater(RemoveAt(es, i), i, k, es[i]);
  }

  lemma {:induction false} FirstLater(es: seq<int>, i: nat, k: nat, e: int)
    requires i <= k <= |es| && (forall j | i <= j < k :: es[j] <= e) && (k < |es| ==> e < es[k])
    ensures k == i + Slot(es[i..], e)
    decreases k - i
  {
    if i < k {
      assert es[i..][1..] == es[i + 1..];
      FirstLater(es, i + 1, k, e);
    }
  }

  lemma InsertBack(nodes: seq<UtilTimer>, i: nat)
    requires i < |nodes|
    ensures InsertAt(RemoveAt(nodes, i), i, nodes[i]) == nodes
  {
  }

  // ---------- links ----------

  /** The i-th node, or null beyond the ends. */
  function Get(nodes: seq<UtilTimer>, i: int): UtilTimer?
  {
    if 0 <= i < |nodes| then nodes[i] else null
  }

  /** next leads along the sequence, except possibly from x and y. */
  ghost predicate NextLinks(nodes: seq<UtilTimer>, x: int, y: int)
    reads nodes`next
  {
    forall i | 0 <= i < |nodes| && i != x && i != y :: nodes[i].next == Get(nodes, i + 1)
  }

  /** prev leads back along the sequence, except possibly from x and y. */
  ghost predicate PrevLinks(nodes: seq<UtilTimer>, x: int, y: int)
    reads nodes`prev
  {
    forall i | 0 <= i < |nodes| && i != x && i != y :: nodes[i].prev == Get(nodes, i - 1)
  }

  /** The nodes are distinct and their links lead along the sequence, both ways. */
  ghost predicate Linked(nodes: seq<UtilTimer>)
    reads nodes`prev, nodes`next
  {
    Distinct(nodes) && NextLinks(nodes, -1, -1) && PrevLinks(nodes, -1, -1)
  }

  /** The links after a new node was linked in at k. */
  lemma LinkedIn(nodes: seq<UtilTimer>, k: nat, timer: UtilTimer)
    requires k <= |nodes| && Distinct(nodes) && timer !in nodes
    requires NextLinks(nodes, k - 1, -1) && timer.next == Get(nodes, k) && (k > 0 ==> nodes[k - 1].next == timer)
    requires PrevLinks(nodes, k, -1) && timer.prev == Get(nodes, k - 1) && (k < |nodes| ==> nodes[k].prev == timer)
    ensures Linked(InsertAt(nodes, k, timer))
  {
    var r := InsertAt(nodes, k, timer);
    hide InsertAt;
    assert Distinct(r);
    assert NextLinks(r, -1, -1);
    assert PrevLinks(r, -1, -1);
  }

  /** The links after node k was unlinked. */
  lemma LinkedOut(nodes: seq<UtilTimer>, k: nat)
    requires k < |nodes| && Distinct(nodes)
    requires NextLinks(nodes, k - 1, k) && (k > 0 ==> nodes[k - 1].next == Get(nodes, k + 1))
    requires PrevLinks(nodes, k, k + 1) && (k + 1 < |nodes| ==> nodes[k + 1].prev == Get(nodes, k - 1))
    ensures Linked(RemoveAt(nodes, k)) && nodes[k] !in RemoveAt(nodes, k)
  {
    var r := RemoveAt(nodes, k);
    hide RemoveAt;
    assert Distinct(r);
    assert NextLinks(r, -1, -1);
    assert PrevLinks(r, -1, -1);
  }

  /** No other position holds the node at k. */
  lemma OnlyAt(nodes: seq<UtilTimer>, k: nat)
    requires Distinct(nodes) && k < |nodes|
    ensures forall i | 0 <= i < |nodes| && i != k :: nodes[i] != nodes[k]
  {
  }

  /** Fewer positions are looked at. */
  lemma ExceptAt(nodes: seq<UtilTimer>, x: int, y: int)
    ensures NextLinks(nodes, -1, -1) ==> NextLinks(nodes, x, y)
    ensures PrevLinks(nodes, -1, -1) ==> PrevLinks(nodes, x, y)
  {
  }

  lemma OnlyNode(nodes: seq<UtilTimer>)
    requires |nodes| == 1
    ensures RemoveAt(nodes, 0) == [] && Linked([])
  {
  }

  lemma OnePlace(nodes: seq<UtilTimer>, i: nat)
    requires Linked(nodes) && i < |nodes|
    ensures nodes[i] == nodes[0] <==> i == 0
    ensures nodes[i] == nodes[|nodes| - 1] <==> i == |nodes| - 1
  {
  }

  lemma NextOf(nodes: seq<UtilTimer>, k: nat)
    requires Linked(nodes) && k < |nodes|
    ensures nodes[k].next == Get(nodes, k + 1) && nodes[k].prev == Get(nodes, k - 1)
  {
  }

  class SortTimerList {
    var head: UtilTimer?
    var tail: UtilTimer?
    ghost var nodes: seq<UtilTimer>
    /** The timers called back so far. */
    ghost var fired: seq<UtilTimer>

    /** The links are right, whatever the deadlines are; tail is not reset when a tick
        empties the list. */
    ghost predicate Shape()
      reads this, nodes`prev, nodes`next
    {
      && Linked(nodes)
      && head == (if nodes == [] then null else nodes[0])
      && (nodes != [] ==> tail == nodes[|nodes| - 1])
    }

    ghost predicate Valid()
      reads this, nodes
    {
      Shape() && Ascending(Expires(nodes))
    }

    constructor ()
      ensures Valid() && nodes == [] && fired == []
    {
      head, tail, nodes, fired := null, null, [], [];
    }

    /** The forward links of a timer between two neighbours. */
    method LinkNext(timer: UtilTimer, prev: UtilTimer, next: UtilTimer?, ghost k: nat)
      requires Distinct(nodes) && NextLinks(nodes, -1, -1) && timer !in nodes
      requires 0 < k <= |nodes| && prev == nodes[k - 1] && next == Get(nodes, k)
      modifies nodes`next, timer`next
      ensures NextLinks(nodes, k - 1, -1) && nodes[k - 1].next == timer && timer.next == Get(nodes, k)
    {
      hide Distinct;
      OnlyAt(nodes, k - 1);
      prev.next := timer;
      timer.next := next;
    }

    /** Its backward links. */
    method LinkPrev(timer: UtilTimer, prev: UtilTimer, next: UtilTimer?, ghost k: nat)
      requires Distinct(nodes) && PrevLinks(nodes, -1, -1) && timer !in nodes
      requires 0 < k <= |nodes| && prev == nodes[k - 1] && next == Get(nodes, k)
      modifies nodes`prev, timer`prev
      ensures PrevLinks(nodes, k, -1) && (k < |nodes| ==> nodes[k].prev == timer) && timer.prev == Get(nodes, k - 1)
    {
      hide Distinct;
      if k < |nodes| {
        OnlyAt(nodes, k);
      }
      if next != null {
        next.prev := timer;
      }
      timer.prev := prev;
    }

    /** Links the timer in between two neighbours, of which the second may be the end. */
    method Link(timer: UtilTimer, prev: UtilTimer, next: UtilTimer?, ghost k: nat)
      requires Linked(nodes) && timer !in nodes
      requires 0 < k <= |nodes| && prev == nodes[k - 1] && next == Get(nodes, k)
      modifies nodes`prev, nodes`next, timer`prev, timer`next
      ensures Linked(InsertAt(nodes, k, timer))
    {
      hide InsertAt, Distinct, NextLinks, PrevLinks;
      LinkNext(timer, prev, next, k);
      LinkPrev(timer, prev, next, k);
      LinkedIn(nodes, k, timer);
    }

    /** Links the timer in between two neighbours; behind the last one it becomes the tail. */
    method Place(timer: UtilTimer, prev: UtilTimer, next: UtilTimer?, ghost k: nat)
      requires Shape() && timer !in nodes
      requires 0 < k <= |nodes| && prev == nodes[k - 1] && next == Get(nodes, k)
      modifies `tail, `nodes, nodes`prev, nodes`next, timer`prev, timer`next
      ensures Shape() && nodes == InsertAt(old(nodes), k, timer)
    {
      hide Linked, InsertAt;
      Link(timer, prev, next, k);
      if next == null {
        tail := timer;
      }
      nodes := InsertAt(nodes, k, timer);
    }

    /** The private overload of add_timer: walks from lstHead, which stands at p and is not
        later than the timer, to the first later timer behind it. */
    method AddFrom(timer: UtilTimer, lstHead: UtilTimer, ghost p: nat) returns (ghost k: nat)
      requires Shape() && p < |nodes| && nodes[p] == lstHead && timer !in nodes
      modifies `tail, `nodes, nodes`prev, nodes`next, timer`prev, timer`next
      ensures Shape()
      ensures p < k <= |old(nodes)| && nodes == InsertAt(old(nodes), k, timer)
      ensures forall i | p < i < k :: old(nodes)[i].expire <= timer.expire
      ensures k < |old(nodes)| ==> timer.expire < old(nodes)[k].expire
    {
      hide Linked, InsertAt;
      NextOf(nodes, p);
      var prev := lstHead;
      var tmp := prev.next;
      k := p + 1;
      while tmp != null
        invariant nodes == old(nodes) && Shape()
        invariant p < k <= |nodes| && prev == nodes[k - 1] && tmp == Get(nodes, k)
        invariant forall i | p < i < k :: nodes[i].expire <= timer.expire
        decreases |nodes| - k
      {
        if timer.expire < tmp.expire {
          Place(timer, prev, tmp, k);
          break;
        }
        NextOf(nodes, k);
        prev := tmp;
        tmp := tmp.next;
        k := k + 1;
      }
      if tmp == null {
        Place(timer, prev, null, k);
      }
    }

    /** The links of a new head. */
    method HangFirst(timer: UtilTimer)
      requires Linked(nodes) && nodes != [] && head == nodes[0] && timer !in nodes && timer.prev == null
      modifies `head, nodes`prev, timer`next
      ensures Linked(InsertAt(nodes, 0, timer)) && head == timer
    {
      hide InsertAt, Distinct;
      OnlyAt(nodes, 0);
      timer.next := head;
      head.prev := timer;
      head := timer;
      LinkedIn(nodes, 0, timer);
    }

    /** Links a timer in before the first one. */
    method LinkFirst(timer: UtilTimer)
      requires Shape() && nodes != [] && timer !in nodes && timer.prev == null
      modifies `head, `nodes, nodes`prev, timer`next
      ensures Shape() && nodes == InsertAt(old(nodes), 0, timer)
    {
      hide InsertAt, Linked;
      HangFirst(timer);
      nodes := InsertAt(nodes, 0, timer);
    }

    /** add_timer for a timer that is not null. */
    method Add(timer: UtilTimer) returns (ghost k: nat)
      requires Shape() && timer !in nodes && timer.prev == null && timer.next == null
      modifies `head, `tail, `nodes, nodes`prev, nodes`next, timer`prev, timer`next
      ensures Shape() && k <= |old(nodes)| && nodes == InsertAt(old(nodes), k, timer)
      ensures forall i | 0 < i < k :: old(nodes)[i].expire <= timer.expire
      ensures k > 0 ==> old(nodes)[0].expire <= timer.expire
      ensures k < |old(nodes)| ==> timer.expire < old(nodes)[k].expire
    {
      hide InsertAt, Linked;
      if head == null {
        LinkedIn([], 0, timer);
        head, tail := timer, timer;
        nodes := InsertAt(nodes, 0, timer);
        return 0;
      }
      if timer.expire < head.expire {
        LinkFirst(timer);
        return 0;
      }
      k := AddFrom(timer, head, 0);
    }

    /** A new timer goes behind every timer that is not later. */
    method Insert(timer: UtilTimer)
      requires Valid() && timer !in nodes && timer.prev == null && timer.next == null
      modifies `head, `tail, `nodes, nodes`prev, nodes`next, timer`prev, timer`next
      ensures Valid() && nodes == InsertAt(old(nodes), Slot(old(Expires(nodes)), timer.expire), timer)
    {
      hide InsertAt, Slot, Ascending, Linked, Expires;
      ghost var before, es := nodes, Expires(nodes);
      ghost var k := Add(timer);
      assert Expires(before) == es;
      InsertedInOrder(before, k, timer);
    }

    method AddTimer(timer: UtilTimer?)
      requires Valid()
      requires timer != null ==> timer !in nodes && timer.prev == null && timer.next == null
      modifies `head, `tail, `nodes, nodes`prev, nodes`next
      modifies (if timer == null then {} else {timer})`prev, (if timer == null then {} else {timer})`next
      ensures Valid()
      ensures nodes == if timer == null then old(nodes)
                       else InsertAt(old(nodes), Slot(old(Expires(nodes)), timer.expire), timer)
    {
      hide Linked, Ascending, Expires, InsertAt, Slot;
      if timer != null {
        Insert(timer);
      }
    }

    /** The node behind the first, if there is one, becomes the head. */
    method CutFirst()
      requires Linked(nodes) && nodes != [] && head == nodes[0]
      modifies `head, nodes`prev
      ensures Linked(RemoveAt(nodes, 0)) && head == Get(nodes, 1) && old(head) !in RemoveAt(nodes, 0)
    {
      hide RemoveAt, Distinct, NextLinks;
      NextOf(nodes, 0);
      ExceptAt(nodes, -1, 0);
      if |nodes| > 1 {
        OnlyAt(nodes, 1);
      }
      head := head.next;
      if head != null {
        head.prev := null;
      }
      LinkedOut(nodes, 0);
    }

    /** Takes the first of several nodes off the list. */
    method UnlinkFirst()
      requires Shape() && |nodes| > 1
      modifies `head, `nodes, nodes`prev
      ensures Shape() && nodes == RemoveAt(old(nodes), 0) && old(head) !in nodes
    {
      hide RemoveAt, Linked;
      CutFirst();
      nodes := RemoveAt(nodes, 0);
    }

    /** Its neighbours point past a node that has one on each side. */
    method Bypass(timer: UtilTimer, ghost i: nat)
      requires Linked(nodes) && 0 < i < |nodes| - 1 && timer == nodes[i]
      modifies nodes`prev, nodes`next
      ensures Linked(RemoveAt(nodes, i)) && timer !in RemoveAt(nodes, i)
      ensures timer.next == old(timer.next)
    {
      hide RemoveAt, Distinct;
      OnlyAt(nodes, i - 1);
      OnlyAt(nodes, i + 1);
      NextOf(nodes, i);
      timer.prev.next := timer.next;
      timer.next.prev := timer.prev;
      LinkedOut(nodes, i);
    }

    /** Takes a node that has neighbours on both sides off the list. */
    method UnlinkInner(timer: UtilTimer, ghost i: nat)
      requires Shape() && 0 < i < |nodes| - 1 && timer == nodes[i]
      modifies `nodes, nodes`prev, nodes`next
      ensures Shape() && nodes == RemoveAt(old(nodes), i) && timer !in nodes
      ensures timer.next == old(timer.next)
    {
      hide RemoveAt, Linked;
      Bypass(timer, i);
      nodes := RemoveAt(nodes, i);
    }

    /** The node before the last becomes the last. */
    method CutLast()
      requires Linked(nodes) && |nodes| > 1 && tail == nodes[|nodes| - 1]
      modifies `tail, nodes`next
      ensures Linked(RemoveAt(nodes, |nodes| - 1)) && tail == nodes[|nodes| - 2]
    {
      hide RemoveAt, Distinct, PrevLinks;
      ghost var k := |nodes| - 1;
      NextOf(nodes, k);
      ExceptAt(nodes, k, k + 1);
      OnlyAt(nodes, k - 1);
      tail := tail.prev;
      tail.next := null;
      LinkedOut(nodes, k);
    }

    /** Takes the last of several nodes off the list. */
    method UnlinkLast()
      requires Shape() && |nodes| > 1
      modifies `tail, `nodes, nodes`next
      ensures Shape() && nodes == RemoveAt(old(nodes), |old(nodes)| - 1)
    {
      hide RemoveAt, Linked;
      CutLast();
      nodes := RemoveAt(nodes, |nodes| - 1);
    }

    /** The pointer work of adjust_timer. */
    method MoveBack(timer: UtilTimer, ghost i: nat) returns (ghost k: nat)
      requires Shape() && i < |nodes| && nodes[i] == timer
      modifies `head, `tail, `nodes, nodes`prev, nodes`next
      ensures Shape()
      ensures var rest := RemoveAt(old(nodes), i);
              && i <= k <= |rest| && nodes == InsertAt(rest, k, timer)
              && (forall j | i <= j < k :: rest[j].expire <= timer.expire)
              && (k < |rest| ==> timer.expire < rest[k].expire)
    {
      hide Linked, InsertAt;
      OnePlace(nodes, i);
      NextOf(nodes, i);
      InsertBack(nodes, i);
      var tmp := timer.next;
      if tmp == null || timer.expire < tmp.expire {
        return i;
      }
      if timer == head {
        UnlinkFirst();
        timer.next := null;
        k := AddFrom(timer, head, 0);
      } else {
        UnlinkInner(timer, i);
        k := AddFrom(timer, timer.next, i);
      }
    }

    /** The timer at i moves back to the first place from i on where a later one follows. The
        list is in order afterwards if and only if the deadline had only grown: then this is
        removal followed by stable insertion. */
    method AdjustTimer(timer: UtilTimer?, ghost i: nat)
      requires Shape() && (timer != null ==> i < |nodes| && nodes[i] == timer)
      modifies `head, `tail, `nodes, nodes`prev, nodes`next
      ensures Shape() && Expires(old(nodes)) == old(Expires(nodes))
      ensures timer == null ==> nodes == old(nodes)
      ensures timer != null ==> nodes == MovedBack(old(nodes), old(Expires(nodes)), i)
      ensures timer != null ==> (Valid() <==> Grown(old(Expires(nodes)), i))
      ensures timer != null && Valid() ==> nodes == Reinserted(old(nodes), old(Expires(nodes)), i)
    {
      hide Linked, Slot, Ascending, InsertAt, Expires, MovedBack, Reinserted;
      ghost var before, es := nodes, Expires(nodes);
      if timer != null {
        ghost var k := MoveBack(timer, i);
        assert Expires(before) == es;
        MovedExactly(before, i, k);
      }
    }

    method DelTimer(timer: UtilTimer?, ghost i: nat)
      requires Valid() && (timer != null ==> i < |nodes| && nodes[i] == timer)
      modifies `head, `tail, `nodes, nodes`prev, nodes`next
      ensures Valid()
      ensures nodes == if timer == null then old(nodes) else RemoveAt(old(nodes), i)
    {
      hide Linked, Ascending, RemoveAt, Expires;
      if timer == null {
        return;
      }
      OnePlace(nodes, i);
      ghost var before, es := nodes, Expires(nodes);
      if timer == head && timer == tail {
        OnlyNode(nodes);
        head, tail := null, null;
        nodes := [];
      } else if timer == head {
        UnlinkFirst();
      } else if timer == tail {
        UnlinkLast();
      } else {
        UnlinkInner(timer, i);
      }
      assert Expires(before) == es;
      ExpiresAfterRemove(before, i);
      RemoveKeepsAscending(es, i);
    }

    /** Takes the first node off the list, perhaps the only one: tail is left alone. */
    method PopFront()
      requires Shape() && nodes != []
      modifies `head, `nodes, nodes`prev
      ensures Shape() && nodes == old(nodes)[1..]
    {
      hide RemoveAt, Linked;
      CutFirst();
      DropFirst(nodes);
      nodes := nodes[1..];
    }

    /** Calls back and removes exactly the timers due at time cur, in order. */
    method Tick(cur: int)
      requires Valid()
      modifies `head, `nodes, `fired, nodes`prev
      ensures Valid()
      ensures var n := Slot(old(Expires(nodes)), cur);
              fired == old(fired) + old(nodes)[..n] && nodes == old(nodes)[n..]
    {
      hide Linked, Slot, Expires, Ascending;
      ghost var before, es, n := nodes, Expires(nodes), 0;
      var tmp := head;
      while tmp != null
        invariant Shape() && tmp == head
        invariant n <= |before| && nodes == before[n..]
        invariant fired == old(fired) + before[..n]
        invariant forall i | 0 <= i < n :: es[i] <= cur
        decreases |before| - n
      {
        assert tmp == before[n];
        if cur < tmp.expire {
          break;
        }
        fired := fired + [tmp];
        PopFront();
        n := n + 1;
        tmp := head;
      }
      SlotIsUnique(es, cur, n);
      assert Expires(before) == es;
      ExpiresSuffix(before, n);
    }
  }
}
