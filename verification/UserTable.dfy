/** The parent's tables in 13/13-4shm_talk_server.cpp: a dense array of connected users,
    one child process each, and a reverse index from process id to array position. */
module UserTable {

  datatype User = User(connfd: int, pid: int, pipe: int)

  const NONE := -1

  /** Deleting position i by moving the last record there. */
  function SwapRemove<T>(s: seq<T>, i: nat): (r: seq<T>)
    requires i < |s|
    ensures |r| == |s| - 1
  {
    s[i := s[|s| - 1]][..|s| - 1]
  }

  /** It removes exactly the record at i and keeps every other one. */
  lemma SwapRemoveIsRemoval<T>(s: seq<T>, i: nat)
    requires i < |s|
    ensures multiset(SwapRemove(s, i)) == multiset(s) - multiset{s[i]}
  {
    var last := s[|s| - 1];
    var front := s[..|s| - 1];
    assert s == front + [last];
    if i < |front| {
      assert SwapRemove(s, i) == front[..i] + [last] + front[i + 1..];
      assert front == front[..i] + [s[i]] + front[i + 1..];
    } else {
      assert SwapRemove(s, i) == front;
    }
  }

  /** The reverse index says where each user's record is. */
  predicate Indexed(table: seq<User>, index: seq<int>)
  {
    forall i | 0 <= i < |table| :: 0 < table[i].pid < |index| && index[table[i].pid] == i
  }

  function Pids(table: seq<User>): set<int>
  {
    set u <- table :: u.pid
  }

  lemma PidsAfterAppend(table: seq<User>, u: User)
    ensures Pids(table + [u]) == Pids(table) + {u.pid}
  {
    assert forall v :: v in table + [u] <==> v in table || v == u;
  }

  lemma PidsAfterRemove(table: seq<User>, index: seq<int>, i: nat)
    requires i < |table| && Indexed(table, index)
    ensures Pids(SwapRemove(table, i)) == Pids(table) - {table[i].pid}
  {
    var r := SwapRemove(table, i);
    IndexedMeansDistinct(table, index);
    forall j | 0 <= j < |table| && j != i
      ensures table[j] in r && table[j].pid != table[i].pid
    {
      assert r[if j == |table| - 1 then i else j] == table[j];
    }
    assert forall u <- r :: exists j :: 0 <= j < |table| && j != i && table[j] == u;
  }

  /** A correct reverse index keeps process ids apart. */
  lemma IndexedMeansDistinct(table: seq<User>, index: seq<int>)
    requires Indexed(table, index)
    ensures forall i, j | 0 <= i < j < |table| :: table[i].pid != table[j].pid
  {
    forall i, j | 0 <= i < j < |table|
      ensures table[i].pid != table[j].pid
    {
      assert index[table[i].pid] == i && index[table[j].pid] == j;
    }
  }

  /** What the parent does to the index when the user at i goes: the dead process id is
      cleared, then the moved record's id is pointed at i. */
  function Reindex(index: seq<int>, table: seq<User>, i: nat): seq<int>
    requires i < |table| && Indexed(table, index)
  {
    index[table[i].pid := NONE][table[|table| - 1].pid := i]
  }

  lemma SwapRemoveKeepsIndexed(table: seq<User>, index: seq<int>, i: nat)
    requires i < |table| && Indexed(table, index)
    ensures Indexed(SwapRemove(table, i), Reindex(index, table, i))
  {
    IndexedMeansDistinct(table, index);
  }

  /** No other process id is touched. */
  lemma ReindexElsewhere(table: seq<User>, index: seq<int>, i: nat, p: nat)
    requires i < |table| && Indexed(table, index) && p < |index|
    requires p != table[i].pid && p != table[|table| - 1].pid
    ensures |Reindex(index, table, i)| == |index| && Reindex(index, table, i)[p] == index[p]
  {
  }

  /** The dead process id ends up unassigned exactly when another record was moved. */
  lemma DeadSlotCleared(table: seq<User>, index: seq<int>, i: nat)
    requires i < |table| && Indexed(table, index)
    ensures Reindex(index, table, i)[table[i].pid] == NONE <==> i != |table| - 1
  {
    IndexedMeansDistinct(table, index);
  }

  datatype Outcome = NotAccepted | TooManyUsers | ForkFailed | Added

  class Tables {
    const limit: nat
    const users: array<User>
    const subProcess: array<int>
    var userCount: nat
    /** The processes forked and not yet waited for. */
    ghost var children: set<int>

    ghost predicate Valid()
      reads this, users, subProcess
    {
      && users.Length == limit + 1
      && userCount <= limit
      && Indexed(Table(), subProcess[..])
      && Pids(Table()) == children
    }

    /** The connected users. */
    ghost function Table(): (t: seq<User>)
      reads this, users
      requires userCount <= users.Length
    {
      users[..userCount]
    }

    constructor (userLimit: nat, processLimit: nat)
      ensures Valid() && fresh(users) && fresh(subProcess)
      ensures limit == userLimit && subProcess.Length == processLimit
      ensures Table() == [] && children == {} && forall p | 0 <= p < processLimit :: subProcess[p] == NONE
    {
      limit := userLimit;
      users := new User[userLimit + 1](_ => User(0, 0, 0));
      subProcess := new int[processLimit](_ => NONE);
      userCount, children := 0, {};
    }

    /** A new connection; pid is what fork returned to the parent: never the id of a child
        that is still to be waited for. */
    method Accept(connfd: int, pipe: int, pid: int) returns (outcome: Outcome)
      requires Valid()
      requires pid != 0 && pid < subProcess.Length && pid !in children
      modifies `userCount, `children, users, subProcess
      ensures Valid()
      ensures outcome ==
        if connfd < 0 then NotAccepted
        else if old(userCount) == limit then TooManyUsers
        else if pid < 0 then ForkFailed
        else Added
      ensures outcome == Added ==>
        && Table() == old(Table()) + [User(connfd, pid, pipe)]
        && subProcess[..] == old(subProcess[..])[pid := |old(Table())|]
        && children == old(children) + {pid}
      ensures outcome != Added ==>
        Table() == old(Table()) && subProcess[..] == old(subProcess[..]) && children == old(children)
    {
      if connfd < 0 {
        return NotAccepted;
      }
      if userCount >= limit {
        return TooManyUsers;
      }
      users[userCount] := users[userCount].(connfd := connfd, pipe := pipe);
      if pid < 0 {
        return ForkFailed;
      }
      ghost var table := Table();
      users[userCount] := users[userCount].(pid := pid);
      subProcess[pid] := userCount;
      userCount := userCount + 1;
      children := children + {pid};
      forall i | 0 <= i < |table|
        ensures table[i].pid != pid
      {
        assert table[i] in table;
      }
      assert Table() == table + [User(connfd, pid, pipe)];
      PidsAfterAppend(table, User(connfd, pid, pipe));
      return Added;
    }

    /** waitpid returned pid: a child that was not waited for before. It is always found. */
    method Reap(pid: int) returns (user: int)
      requires Valid() && pid in children
      modifies `userCount, `children, users, subProcess
      ensures Valid() && children == old(children) - {pid}
      ensures user == old(subProcess[pid]) && 0 <= user < |old(Table())| && old(Table())[user].pid == pid
      ensures Table() == SwapRemove(old(Table()), user)
      ensures subProcess[..] == Reindex(old(subProcess[..]), old(Table()), user)
    {
      ghost var table, index := Table(), subProcess[..];
      ghost var i := WhereIs(pid);
      user := subProcess[pid];
      subProcess[pid] := NONE;
      if user < 0 || user > limit {
        assert false;  // every child has its record
      }
      userCount := userCount - 1;
      users[user] := users[userCount];
      subProcess[users[user].pid] := user;
      children := children - {pid};
      SwapRemoveKeepsIndexed(table, index, user);
      PidsAfterRemove(table, index, user);
      assert Table() == SwapRemove(table, user);
      assert subProcess[..] == Reindex(index, table, user);
    }

    lemma WhereIs(pid: int) returns (i: nat)
      requires Valid() && pid in children
      ensures i < userCount && users[i].pid == pid && 0 < pid < subProcess.Length && subProcess[pid] == i
    {
      var u :| u in Table() && u.pid == pid;
      i :| 0 <= i < |Table()| && Table()[i] == u;
      assert subProcess[..][Table()[i].pid] == i;
    }
  }
}
