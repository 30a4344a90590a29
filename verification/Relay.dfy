/** One proxied connection of springsnail/conn.cpp: two buffers, one for each direction,
    filled by recv and emptied by send, neither of which has to do all that is asked. */
module Relay {
  import opened Sequences

  datatype RetCode = Ok | Nothing | IoErr | Closed | BufferFull | BufferEmpty | TryAgain

  /** What one recv returns: bytes, or no data yet, or an error, or the peer's close. */
  datatype Received = Got(bytes: string) | RecvBlocks | RecvFails | RecvCloses

  /** What one send returns. */
  datatype Sent = Wrote(n: nat) | SendBlocks | SendFails | SendCloses

  /** The environment: the outcome of the k-th call made with room for, or with, n bytes. */
  type RecvCalls = (nat, nat) -> Received
  type SendCalls = (nat, nat) -> Sent

  /** recv and send return counts between 1 and the length requested. */
  ghost predicate GoodRecv(recv: RecvCalls)
  {
    forall k: nat, n: nat | n > 0 && recv(k, n).Got? :: 1 <= |recv(k, n).bytes| <= n
  }

  ghost predicate GoodSend(send: SendCalls)
  {
    forall k: nat, n: nat | n > 0 && send(k, n).Wrote? :: 1 <= send(k, n).n <= n
  }

  /** All that recv delivers, from its k-th call on, to a buffer with this much room. */
  ghost function Arrives(recv: RecvCalls, k: nat, room: nat): (bytes: string)
    requires GoodRecv(recv)
    ensures |bytes| <= room
    decreases room
  {
    if room == 0 || !recv(k, room).Got? then []
    else recv(k, room).bytes + Arrives(recv, k + 1, room - |recv(k, room).bytes|)
  }

  /** Why it stops: BufferFull, or what the last recv returned. */
  ghost function ReadEnd(recv: RecvCalls, k: nat, room: nat): RetCode
    requires GoodRecv(recv)
    decreases room
  {
    if room == 0 then BufferFull
    else match recv(k, room)
      case Got(bytes) => ReadEnd(recv, k + 1, room - |bytes|)
      case RecvBlocks => TryAgain
      case RecvFails => IoErr
      case RecvCloses => Closed
  }

  /** How many of n bytes the send calls take, from the k-th call on. */
  ghost function Leaves(send: SendCalls, k: nat, n: nat): (m: nat)
    requires GoodSend(send)
    ensures m <= n
    decreases n
  {
    if n == 0 || !send(k, n).Wrote? then 0
    else send(k, n).n + Leaves(send, k + 1, n - send(k, n).n)
  }

  ghost function WriteEnd(send: SendCalls, k: nat, n: nat): RetCode
    requires GoodSend(send)
    decreases n
  {
    if n == 0 then BufferEmpty
    else match send(k, n)
      case Wrote(m) => WriteEnd(send, k + 1, n - m)
      case SendBlocks => TryAgain
      case SendFails => IoErr
      case SendCloses => Closed
  }

  /** The first recv call settles the rest. */
  lemma ReadStep(recv: RecvCalls, k: nat, room: nat)
    requires GoodRecv(recv) && room > 0
    ensures match recv(k, room)
            case Got(bytes) =>
              && 1 <= |bytes| <= room && Arrives(recv, k, room) == bytes + Arrives(recv, k + 1, room - |bytes|)
              && ReadEnd(recv, k, room) == ReadEnd(recv, k + 1, room - |bytes|)
            case RecvBlocks => Arrives(recv, k, room) == [] && ReadEnd(recv, k, room) == TryAgain
            case RecvFails => Arrives(recv, k, room) == [] && ReadEnd(recv, k, room) == IoErr
            case RecvCloses => Arrives(recv, k, room) == [] && ReadEnd(recv, k, room) == Closed
  {
  }

  lemma WriteStep(send: SendCalls, k: nat, n: nat)
    requires GoodSend(send) && n > 0
    ensures match send(k, n)
            case Wrote(m) =>
              && 1 <= m <= n && Leaves(send, k, n) == m + Leaves(send, k + 1, n - m)
              && WriteEnd(send, k, n) == WriteEnd(send, k + 1, n - m)
            case SendBlocks => Leaves(send, k, n) == 0 && WriteEnd(send, k, n) == TryAgain
            case SendFails => Leaves(send, k, n) == 0 && WriteEnd(send, k, n) == IoErr
            case SendCloses => Leaves(send, k, n) == 0 && WriteEnd(send, k, n) == Closed
  {
  }

  /** The code of a read that was told this by its last recv call, or had no room for one. */
  predicate ReadSays(code: RetCode, last: Received, waiting: nat)
  {
    && (code == IoErr <==> last == RecvFails)
    && (code == Closed <==> last == RecvCloses)
    && (code == Ok <==> last == RecvBlocks && waiting > 0)
    && (code == Nothing <==> last == RecvBlocks && waiting == 0)
    && !last.Got?
  }

  predicate WriteSays(code: RetCode, last: Sent)
  {
    && (code == TryAgain <==> last == SendBlocks)
    && (code == IoErr <==> last == SendFails)
    && (code == Closed <==> last == SendCloses)
    && !last.Wrote?
  }

  /** The recv calls from the k-th on return these pieces, each asked for the room there is;
      then there is no room left, or the code says what the next call returns. */
  ghost predicate ReadRun(recv: RecvCalls, k: nat, room: nat, pieces: seq<string>, waiting: nat, code: RetCode)
    decreases |pieces|
  {
    if room == 0 then pieces == [] && code == BufferFull
    else if pieces == [] then ReadSays(code, recv(k, room), waiting)
    else
      && recv(k, room) == Got(pieces[0]) && |pieces[0]| <= room
      && ReadRun(recv, k + 1, room - |pieces[0]|, pieces[1..], waiting, code)
  }

  /** The send calls from the k-th on take these many bytes, each asked for all that are left;
      then none are left, or the code says what the next call returns. */
  ghost predicate WriteRun(send: SendCalls, k: nat, n: nat, counts: seq<nat>, code: RetCode)
    decreases |counts|
  {
    if n == 0 then counts == [] && code == BufferEmpty
    else if counts == [] then WriteSays(code, send(k, n))
    else
      && send(k, n) == Wrote(counts[0]) && counts[0] <= n
      && WriteRun(send, k + 1, n - counts[0], counts[1..], code)
  }

  /** There is such a run, and the pieces are what arrives. */
  lemma {:induction false} ReadRuns(recv: RecvCalls, k: nat, room: nat, waiting: nat) returns (pieces: seq<string>)
    requires GoodRecv(recv)
    ensures var end := ReadEnd(recv, k, room);
            var code := if end == TryAgain then if waiting > 0 then Ok else Nothing else end;
            ReadRun(recv, k, room, pieces, waiting, code)
    ensures Arrives(recv, k, room) == Join(pieces)
    decreases room
  {
    hide GoodRecv;
    pieces := [];
    if room > 0 {
      hide Arrives, ReadEnd;
      ReadStep(recv, k, room);
      if recv(k, room).Got? {
        var first := recv(k, room).bytes;
        var rest := ReadRuns(recv, k + 1, room - |first|, waiting);
        pieces := [first] + rest;
        assert pieces[1..] == rest;
      }
    }
  }

  lemma {:induction false} WriteRuns(send: SendCalls, k: nat, n: nat) returns (counts: seq<nat>)
    requires GoodSend(send)
    ensures WriteRun(send, k, n, counts, WriteEnd(send, k, n)) && Leaves(send, k, n) == Sum(counts)
    decreases n
  {
    hide GoodSend;
    counts := [];
    if n > 0 {
      hide Leaves, WriteEnd;
      WriteStep(send, k, n);
      if send(k, n).Wrote? {
        var first := send(k, n).n;
        var rest := WriteRuns(send, k + 1, n - first);
        counts := [first] + rest;
        assert counts[1..] == rest;
      }
    }
  }

  /** The environment settles how a read ends: every run has the same code. */
  lemma {:induction false} OneReading(recv: RecvCalls, k: nat, room: nat, pieces: seq<string>, waiting: nat,
                                      code: RetCode)
    requires GoodRecv(recv) && ReadRun(recv, k, room, pieces, waiting, code)
    ensures var end := ReadEnd(recv, k, room);
            code == if end == TryAgain then if waiting > 0 then Ok else Nothing else end
    decreases |pieces|
  {
    hide GoodRecv, Arrives;
    if room > 0 {
      hide ReadEnd;
      ReadStep(recv, k, room);
      if pieces != [] {
        OneReading(recv, k + 1, room - |pieces[0]|, pieces[1..], waiting, code);
      }
    }
  }

  lemma {:induction false} OneWriting(send: SendCalls, k: nat, n: nat, counts: seq<nat>, code: RetCode)
    requires GoodSend(send) && WriteRun(send, k, n, counts, code)
    ensures code == WriteEnd(send, k, n)
    decreases |counts|
  {
    hide GoodSend, Leaves;
    if n > 0 {
      hide WriteEnd;
      WriteStep(send, k, n);
      if counts != [] {
        OneWriting(send, k + 1, n - counts[0], counts[1..], code);
      }
    }
  }

  /** A read ends in failure or close exactly when some run of recv calls does. */
  lemma ReadBreaks(recv: RecvCalls, room: nat)
    requires GoodRecv(recv)
    ensures (ReadEnd(recv, 0, room) == IoErr || ReadEnd(recv, 0, room) == Closed) <==>
      exists pieces :: ReadRun(recv, 0, room, pieces, 0, IoErr) || ReadRun(recv, 0, room, pieces, 0, Closed)
  {
    hide ReadRun, ReadEnd;
    var pieces := ReadRuns(recv, 0, room, 0);
    forall other, code | ReadRun(recv, 0, room, other, 0, code)
      ensures code == if ReadEnd(recv, 0, room) == TryAgain then Nothing else ReadEnd(recv, 0, room)
    {
      OneReading(recv, 0, room, other, 0, code);
    }
  }

  lemma WriteBreaks(send: SendCalls, n: nat)
    requires GoodSend(send)
    ensures (WriteEnd(send, 0, n) == IoErr || WriteEnd(send, 0, n) == Closed) <==>
      exists counts :: WriteRun(send, 0, n, counts, IoErr) || WriteRun(send, 0, n, counts, Closed)
  {
    hide WriteRun, WriteEnd;
    var counts := WriteRuns(send, 0, n);
    forall other, code | WriteRun(send, 0, n, other, code)
      ensures code == WriteEnd(send, 0, n)
    {
      OneWriting(send, 0, n, other, code);
    }
  }

  /** Only an exhausted send leaves nothing waiting. */
  lemma {:induction false} EmptyOnlyWhenAllLeft(send: SendCalls, k: nat, n: nat)
    requires GoodSend(send)
    ensures WriteEnd(send, k, n) == BufferEmpty <==> Leaves(send, k, n) == n
    decreases n
  {
    if n > 0 && send(k, n).Wrote? {
      EmptyOnlyWhenAllLeft(send, k + 1, n - send(k, n).n);
    }
  }

  /** A full buffer is the only way a read ends without recv saying so. */
  lemma {:induction false} FullOnlyWhenNoRoom(recv: RecvCalls, k: nat, room: nat)
    requires GoodRecv(recv)
    ensures ReadEnd(recv, k, room) == BufferFull <==> |Arrives(recv, k, room)| == room
    decreases room
  {
    if room > 0 && recv(k, room).Got? {
      FullOnlyWhenNoRoom(recv, k + 1, room - |recv(k, room).bytes|);
    }
  }

  /** What came in is what went out followed by what the buffer still holds. */
  ghost predicate Conserves(buf: seq<char>, writeIdx: nat, readIdx: nat, received: string, sent: string)
  {
    writeIdx <= readIdx <= |buf| && received == sent + buf[writeIdx..readIdx]
  }

  /** Between calls an emptied buffer starts again at its beginning. */
  predicate Normal(writeIdx: nat, readIdx: nat)
  {
    writeIdx < readIdx || (writeIdx == 0 && readIdx == 0)
  }

  /** A recv appends to what is waiting. */
  lemma FillConserves(buf: seq<char>, buf': seq<char>, writeIdx: nat, readIdx: nat, bytes: string,
                      received: string, sent: string)
    requires Conserves(buf, writeIdx, readIdx, received, sent) && readIdx + |bytes| <= |buf| == |buf'|
    requires buf'[..readIdx] == buf[..readIdx] && buf'[readIdx..readIdx + |bytes|] == bytes
    ensures Conserves(buf', writeIdx, readIdx + |bytes|, received + bytes, sent)
  {
    Splice(buf', writeIdx, readIdx, readIdx + |bytes|);
    assert buf'[writeIdx..readIdx] == buf'[..readIdx][writeIdx..] == buf[..readIdx][writeIdx..];
    assert buf[..readIdx][writeIdx..] == buf[writeIdx..readIdx];
    Assoc(sent, buf[writeIdx..readIdx], bytes);
  }

  /** A send takes from the front of what is waiting. */
  lemma DrainConserves(buf: seq<char>, writeIdx: nat, readIdx: nat, n: nat, received: string, sent: string)
    requires Conserves(buf, writeIdx, readIdx, received, sent) && writeIdx + n <= readIdx
    ensures Conserves(buf, writeIdx + n, readIdx, received, sent + buf[writeIdx..writeIdx + n])
  {
    Splice(buf, writeIdx, writeIdx + n, readIdx);
    Assoc(sent, buf[writeIdx..writeIdx + n], buf[writeIdx + n..readIdx]);
  }

  lemma Splice(buf: seq<char>, a: nat, b: nat, c: nat)
    requires a <= b <= c <= |buf|
    ensures buf[a..b] + buf[b..c] == buf[a..c]
  {
  }

  /** The bytes of a session, per peer and direction. */
  datatype Flows = Flows(fromClt: string, toSrv: string, fromSrv: string, toClt: string)

  class Conn {
    const cltBuf: array<char>
    var cltReadIdx: nat
    var cltWriteIdx: nat
    var cltFd: int
    const srvBuf: array<char>
    var srvReadIdx: nat
    var srvWriteIdx: nat
    var srvFd: int
    var srvClosed: bool
    /** The bytes of the current session, per peer and direction. */
    ghost var fromClt: string
    ghost var toSrv: string
    ghost var fromSrv: string
    ghost var toClt: string

    ghost predicate Upstream()
      reads `cltWriteIdx, `cltReadIdx, `fromClt, `toSrv, cltBuf
    {
      Conserves(cltBuf[..], cltWriteIdx, cltReadIdx, fromClt, toSrv)
    }

    ghost predicate Downstream()
      reads `srvWriteIdx, `srvReadIdx, `fromSrv, `toClt, srvBuf
    {
      Conserves(srvBuf[..], srvWriteIdx, srvReadIdx, fromSrv, toClt)
    }

    ghost function Session(): Flows
      reads `fromClt, `toSrv, `fromSrv, `toClt
    {
      Flows(fromClt, toSrv, fromSrv, toClt)
    }

    /** What holds between calls. */
    ghost predicate Valid()
      reads `cltReadIdx, `cltWriteIdx, `fromClt, `toSrv, cltBuf
      reads `srvReadIdx, `srvWriteIdx, `fromSrv, `toClt, srvBuf
    {
      && cltBuf != srvBuf && cltBuf.Length > 0 && srvBuf.Length > 0
      && Upstream() && Normal(cltWriteIdx, cltReadIdx)
      && Downstream() && Normal(srvWriteIdx, srvReadIdx)
    }

    lemma Indices()
      requires Valid()
      ensures cltWriteIdx <= cltReadIdx <= cltBuf.Length && srvWriteIdx <= srvReadIdx <= srvBuf.Length
    {
    }

    ghost predicate Fresh()
      reads this
    {
      && cltFd == -1 && !srvClosed
      && fromClt == [] && toSrv == [] && fromSrv == [] && toClt == []
      && cltReadIdx == 0 && cltWriteIdx == 0 && srvReadIdx == 0 && srvWriteIdx == 0
    }

    constructor (size: nat)
      requires size > 0
      ensures Valid() && Fresh() && srvFd == -1
      ensures fresh(cltBuf) && fresh(srvBuf) && cltBuf.Length == srvBuf.Length == size
    {
      srvFd := -1;
      cltBuf := new char[size];
      srvBuf := new char[size];
      cltFd, srvClosed := -1, false;
      cltReadIdx, cltWriteIdx, srvReadIdx, srvWriteIdx := 0, 0, 0, 0;
      fromClt, toSrv, fromSrv, toClt := [], [], [], [];
      new;
      Reset();
    }

    method InitClt(fd: int)
      requires Valid()
      modifies `cltFd
      ensures Valid() && cltFd == fd
    {
      cltFd := fd;
    }

    method InitSrv(fd: int)
      requires Valid()
      modifies `srvFd
      ensures Valid() && srvFd == fd && Fresh() == old(Fresh())
    {
      srvFd := fd;
    }

    /** A new session starts with empty buffers: nothing received earlier can be sent in it. */
    method Reset()
      requires cltBuf != srvBuf && cltBuf.Length > 0 && srvBuf.Length > 0
      modifies this, cltBuf, srvBuf
      ensures Valid() && Fresh() && srvFd == old(srvFd) && cltFd == -1 && !srvClosed
      ensures Session() == Flows([], [], [], [])
      ensures cltReadIdx == cltWriteIdx == srvReadIdx == srvWriteIdx == 0
      ensures forall i | 0 <= i < cltBuf.Length :: cltBuf[i] == '\0'
      ensures forall i | 0 <= i < srvBuf.Length :: srvBuf[i] == '\0'
    {
      cltReadIdx, cltWriteIdx, srvReadIdx, srvWriteIdx := 0, 0, 0, 0;
      srvClosed := false;
      cltFd := -1;
      forall i | 0 <= i < cltBuf.Length { cltBuf[i] := '\0'; }
      forall i | 0 <= i < srvBuf.Length { srvBuf[i] := '\0'; }
      fromClt, toSrv, fromSrv, toClt := [], [], [], [];
    }

    /** recv has put the bytes behind the ones already waiting for the server. */
    method StoreClt(bytes: string)
      requires Valid() && bytes != [] && cltReadIdx + |bytes| <= cltBuf.Length
      modifies `cltReadIdx, `fromClt, cltBuf
      ensures Valid() && fromClt == old(fromClt) + bytes && cltReadIdx == old(cltReadIdx) + |bytes|
    {
      ghost var buf := cltBuf[..];
      forall i | 0 <= i < |bytes| { cltBuf[cltReadIdx + i] := bytes[i]; }
      FillConserves(buf, cltBuf[..], cltWriteIdx, cltReadIdx, bytes, fromClt, toSrv);
      fromClt := fromClt + bytes;
      cltReadIdx := cltReadIdx + |bytes|;
    }

    /** send has taken n of the bytes waiting for the server. */
    method PassSrv(n: nat, ghost start: nat, ghost was: string)
      requires Upstream() && cltWriteIdx + n <= cltReadIdx
      requires start <= cltWriteIdx && toSrv == was + cltBuf[start..cltWriteIdx]
      modifies `cltWriteIdx, `toSrv
      ensures Upstream() && cltWriteIdx == old(cltWriteIdx) + n
      ensures toSrv == was + cltBuf[start..cltWriteIdx]
    {
      Splice(cltBuf[..], start, cltWriteIdx, cltWriteIdx + n);
      Assoc(was, cltBuf[start..cltWriteIdx], cltBuf[cltWriteIdx..cltWriteIdx + n]);
      DrainConserves(cltBuf[..], cltWriteIdx, cltReadIdx, n, fromClt, toSrv);
      toSrv := toSrv + cltBuf[cltWriteIdx..cltWriteIdx + n];
      cltWriteIdx := cltWriteIdx + n;
    }

    /** Everything received has been sent: the buffer starts again at its beginning. */
    method RewindClt()
      requires Upstream() && cltReadIdx <= cltWriteIdx
      modifies `cltReadIdx, `cltWriteIdx
      ensures Upstream() && cltReadIdx == 0 && cltWriteIdx == 0
    {
      cltReadIdx := 0;
      cltWriteIdx := 0;
    }

    /** The loop of the read. */
    method FillClt(recv: RecvCalls) returns (code: RetCode)
      requires Valid() && GoodRecv(recv)
      modifies `cltReadIdx, `fromClt, cltBuf
      ensures Valid()
      ensures fromClt == old(fromClt) + Arrives(recv, 0, cltBuf.Length - old(cltReadIdx))
      ensures var end := ReadEnd(recv, 0, cltBuf.Length - old(cltReadIdx));
              code == if end == TryAgain then if cltWriteIdx < cltReadIdx then Ok else Nothing else end
      ensures code == BufferFull ==> cltWriteIdx < cltReadIdx
      ensures cltReadIdx == old(cltReadIdx) + |fromClt| - |old(fromClt)| && cltWriteIdx <= cltReadIdx <= cltBuf.Length
    {
      assert cltReadIdx <= cltBuf.Length;
      hide Conserves;
      ghost var room := cltBuf.Length - cltReadIdx;
      var calls := 0;
      while true
        invariant Valid() && calls >= 0 && cltReadIdx <= cltBuf.Length
        invariant cltReadIdx - old(cltReadIdx) == |fromClt| - |old(fromClt)|
        invariant fromClt + Arrives(recv, calls, cltBuf.Length - cltReadIdx) == old(fromClt) + Arrives(recv, 0, room)
        invariant ReadEnd(recv, calls, cltBuf.Length - cltReadIdx) == ReadEnd(recv, 0, room)
        decreases cltBuf.Length - cltReadIdx
      {
        if cltReadIdx >= cltBuf.Length {
          return BufferFull;
        }
        match recv(calls, cltBuf.Length - cltReadIdx) {
          case RecvBlocks =>
            break;
          case RecvFails =>
            return IoErr;
          case RecvCloses =>
            return Closed;
          case Got(bytes) =>
            Assoc(fromClt, bytes, Arrives(recv, calls + 1, cltBuf.Length - cltReadIdx - |bytes|));
            StoreClt(bytes);
            calls := calls + 1;
        }
      }
      return if cltReadIdx - cltWriteIdx > 0 then Ok else Nothing;
    }

    method ReadClt(recv: RecvCalls) returns (code: RetCode)
      requires Valid() && GoodRecv(recv)
      modifies `cltReadIdx, `fromClt, cltBuf
      ensures Valid()
      ensures fromClt == old(fromClt) + Arrives(recv, 0, cltBuf.Length - old(cltReadIdx))
      ensures var end := ReadEnd(recv, 0, cltBuf.Length - old(cltReadIdx));
              code == if end == TryAgain then if cltWriteIdx < cltReadIdx then Ok else Nothing else end
      ensures code == BufferFull ==> cltWriteIdx < cltReadIdx
      ensures exists pieces ::
        && fromClt == old(fromClt) + Join(pieces)
        && ReadRun(recv, 0, cltBuf.Length - old(cltReadIdx), pieces, cltReadIdx - cltWriteIdx, code)
    {
      Indices();
      hide Valid, ReadRun, Join, Arrives, ReadEnd;
      ghost var room := cltBuf.Length - cltReadIdx;
      code := FillClt(recv);
      ghost var pieces := ReadRuns(recv, 0, room, cltReadIdx - cltWriteIdx);
    }

    /** The loop of the write. */
    method DrainSrv(send: SendCalls) returns (code: RetCode)
      requires Valid() && GoodSend(send)
      modifies `cltReadIdx, `cltWriteIdx, `toSrv
      ensures Valid()
      ensures var n := Leaves(send, 0, old(cltReadIdx - cltWriteIdx));
              toSrv == old(toSrv) + cltBuf[old(cltWriteIdx)..old(cltWriteIdx) + n]
      ensures code == WriteEnd(send, 0, old(cltReadIdx - cltWriteIdx))
      ensures code == BufferEmpty <==> cltReadIdx == 0
    {
      assert cltWriteIdx <= cltReadIdx <= cltBuf.Length;
      hide Conserves;
      ghost var start, waiting := cltWriteIdx, cltReadIdx - cltWriteIdx;
      var calls := 0;
      while true
        invariant calls >= 0 && start <= cltWriteIdx <= cltReadIdx == old(cltReadIdx) <= cltBuf.Length
        invariant Upstream() && Downstream()
        invariant cltWriteIdx == cltReadIdx || Normal(cltWriteIdx, cltReadIdx)
        invariant toSrv == old(toSrv) + cltBuf[start..cltWriteIdx]
        invariant cltWriteIdx - start + Leaves(send, calls, cltReadIdx - cltWriteIdx) == Leaves(send, 0, waiting)
        invariant WriteEnd(send, calls, cltReadIdx - cltWriteIdx) == WriteEnd(send, 0, waiting)
        decreases cltReadIdx - cltWriteIdx
      {
        if cltReadIdx <= cltWriteIdx {
          RewindClt();
          return BufferEmpty;
        }
        match send(calls, cltReadIdx - cltWriteIdx) {
          case SendBlocks =>
            return TryAgain;
          case SendFails =>
            return IoErr;
          case SendCloses =>
            return Closed;
          case Wrote(n) =>
            PassSrv(n, start, old(toSrv));
            calls := calls + 1;
        }
      }
    }

    method WriteSrv(send: SendCalls) returns (code: RetCode)
      requires Valid() && GoodSend(send)
      modifies `cltReadIdx, `cltWriteIdx, `toSrv
      ensures Valid()
      ensures var n := Leaves(send, 0, old(cltReadIdx - cltWriteIdx));
              toSrv == old(toSrv) + cltBuf[old(cltWriteIdx)..old(cltWriteIdx) + n]
      ensures code == WriteEnd(send, 0, old(cltReadIdx - cltWriteIdx))
      ensures code == BufferEmpty <==> cltReadIdx == 0
      ensures exists counts ::
        && WriteRun(send, 0, old(cltReadIdx - cltWriteIdx), counts, code)
        && Sum(counts) <= old(cltReadIdx - cltWriteIdx)
        && toSrv == old(toSrv) + cltBuf[old(cltWriteIdx)..old(cltWriteIdx) + Sum(counts)]
    {
      Indices();
      hide Valid, WriteRun, WriteSays, Sum, Leaves, WriteEnd, GoodSend, Conserves;
      ghost var n := cltReadIdx - cltWriteIdx;
      ghost var counts := WriteRuns(send, 0, n);
      code := DrainSrv(send);
      assert WriteRun(send, 0, n, counts, code) && Sum(counts) == Leaves(send, 0, n) <= n;
    }

    /** recv has put the bytes behind the ones already waiting for the client. */
    method StoreSrv(bytes: string)
      requires Valid() && bytes != [] && srvReadIdx + |bytes| <= srvBuf.Length
      modifies `srvReadIdx, `fromSrv, srvBuf
      ensures Valid() && fromSrv == old(fromSrv) + bytes && srvReadIdx == old(srvReadIdx) + |bytes|
    {
      ghost var buf := srvBuf[..];
      forall i | 0 <= i < |bytes| { srvBuf[srvReadIdx + i] := bytes[i]; }
      FillConserves(buf, srvBuf[..], srvWriteIdx, srvReadIdx, bytes, fromSrv, toClt);
      fromSrv := fromSrv + bytes;
      srvReadIdx := srvReadIdx + |bytes|;
    }

    /** send has taken n of the bytes waiting for the client. */
    method PassClt(n: nat, ghost start: nat, ghost was: string)
      requires Downstream() && srvWriteIdx + n <= srvReadIdx
      requires start <= srvWriteIdx && toClt == was + srvBuf[start..srvWriteIdx]
      modifies `srvWriteIdx, `toClt
      ensures Downstream() && srvWriteIdx == old(srvWriteIdx) + n
      ensures toClt == was + srvBuf[start..srvWriteIdx]
    {
      Splice(srvBuf[..], start, srvWriteIdx, srvWriteIdx + n);
      Assoc(was, srvBuf[start..srvWriteIdx], srvBuf[srvWriteIdx..srvWriteIdx + n]);
      DrainConserves(srvBuf[..], srvWriteIdx, srvReadIdx, n, fromSrv, toClt);
      toClt := toClt + srvBuf[srvWriteIdx..srvWriteIdx + n];
      srvWriteIdx := srvWriteIdx + n;
    }

    /** Everything received has been sent: the buffer starts again at its beginning. */
    method RewindSrv()
      requires Downstream() && srvReadIdx <= srvWriteIdx
      modifies `srvReadIdx, `srvWriteIdx
      ensures Downstream() && srvReadIdx == 0 && srvWriteIdx == 0
    {
      srvReadIdx := 0;
      srvWriteIdx := 0;
    }

    /** The loop of the read. */
    method FillSrv(recv: RecvCalls) returns (code: RetCode)
      requires Valid() && GoodRecv(recv)
      modifies `srvReadIdx, `fromSrv, srvBuf
      ensures Valid()
      ensures fromSrv == old(fromSrv) + Arrives(recv, 0, srvBuf.Length - old(srvReadIdx))
      ensures var end := ReadEnd(recv, 0, srvBuf.Length - old(srvReadIdx));
              code == if end == TryAgain then if srvWriteIdx < srvReadIdx then Ok else Nothing else end
      ensures code == BufferFull ==> srvWriteIdx < srvReadIdx
      ensures srvReadIdx == old(srvReadIdx) + |fromSrv| - |old(fromSrv)| && srvWriteIdx <= srvReadIdx <= srvBuf.Length
    {
      assert srvReadIdx <= srvBuf.Length;
      hide Conserves;
      ghost var room := srvBuf.Length - srvReadIdx;
      var calls := 0;
      while true
        invariant Valid() && calls >= 0 && srvReadIdx <= srvBuf.Length
        invariant srvReadIdx - old(srvReadIdx) == |fromSrv| - |old(fromSrv)|
        invariant fromSrv + Arrives(recv, calls, srvBuf.Length - srvReadIdx) == old(fromSrv) + Arrives(recv, 0, room)
        invariant ReadEnd(recv, calls, srvBuf.Length - srvReadIdx) == ReadEnd(recv, 0, room)
        decreases srvBuf.Length - srvReadIdx
      {
        if srvReadIdx >= srvBuf.Length {
          return BufferFull;
        }
        match recv(calls, srvBuf.Length - srvReadIdx) {
          case RecvBlocks =>
            break;
          case RecvFails =>
            return IoErr;
          case RecvCloses =>
            return Closed;
          case Got(bytes) =>
            Assoc(fromSrv, bytes, Arrives(recv, calls + 1, srvBuf.Length - srvReadIdx - |bytes|));
            StoreSrv(bytes);
            calls := calls + 1;
        }
      }
      return if srvReadIdx - srvWriteIdx > 0 then Ok else Nothing;
    }

    method ReadSrv(recv: RecvCalls) returns (code: RetCode)
      requires Valid() && GoodRecv(recv)
      modifies `srvReadIdx, `fromSrv, srvBuf
      ensures Valid()
      ensures fromSrv == old(fromSrv) + Arrives(recv, 0, srvBuf.Length - old(srvReadIdx))
      ensures var end := ReadEnd(recv, 0, srvBuf.Length - old(srvReadIdx));
              code == if end == TryAgain then if srvWriteIdx < srvReadIdx then Ok else Nothing else end
      ensures code == BufferFull ==> srvWriteIdx < srvReadIdx
      ensures exists pieces ::
        && fromSrv == old(fromSrv) + Join(pieces)
        && ReadRun(recv, 0, srvBuf.Length - old(srvReadIdx), pieces, srvReadIdx - srvWriteIdx, code)
    {
      Indices();
      hide Valid, ReadRun, Join, Arrives, ReadEnd;
      ghost var room := srvBuf.Length - srvReadIdx;
      code := FillSrv(recv);
      ghost var pieces := ReadRuns(recv, 0, room, srvReadIdx - srvWriteIdx);
    }

    /** The loop of the write. */
    method DrainClt(send: SendCalls) returns (code: RetCode)
      requires Valid() && GoodSend(send)
      modifies `srvReadIdx, `srvWriteIdx, `toClt
      ensures Valid()
      ensures var n := Leaves(send, 0, old(srvReadIdx - srvWriteIdx));
              toClt == old(toClt) + srvBuf[old(srvWriteIdx)..old(srvWriteIdx) + n]
      ensures code == WriteEnd(send, 0, old(srvReadIdx - srvWriteIdx))
      ensures code == BufferEmpty <==> srvReadIdx == 0
    {
      assert srvWriteIdx <= srvReadIdx <= srvBuf.Length;
      hide Conserves;
      ghost var start, waiting := srvWriteIdx, srvReadIdx - srvWriteIdx;
      var calls := 0;
      while true
        invariant calls >= 0 && start <= srvWriteIdx <= srvReadIdx == old(srvReadIdx) <= srvBuf.Length
        invariant Upstream() && Downstream()
        invariant srvWriteIdx == srvReadIdx || Normal(srvWriteIdx, srvReadIdx)
        invariant toClt == old(toClt) + srvBuf[start..srvWriteIdx]
        invariant srvWriteIdx - start + Leaves(send, calls, srvReadIdx - srvWriteIdx) == Leaves(send, 0, waiting)
        invariant WriteEnd(send, calls, srvReadIdx - srvWriteIdx) == WriteEnd(send, 0, waiting)
        decreases srvReadIdx - srvWriteIdx
      {
        if srvReadIdx <= srvWriteIdx {
          RewindSrv();
          return BufferEmpty;
        }
        match send(calls, srvReadIdx - srvWriteIdx) {
          case SendBlocks =>
            return TryAgain;
          case SendFails =>
            return IoErr;
          case SendCloses =>
            return Closed;
          case Wrote(n) =>
            PassClt(n, start, old(toClt));
            calls := calls + 1;
        }
      }
    }

    method WriteClt(send: SendCalls) returns (code: RetCode)
      requires Valid() && GoodSend(send)
      modifies `srvReadIdx, `srvWriteIdx, `toClt
      ensures Valid()
      ensures var n := Leaves(send, 0, old(srvReadIdx - srvWriteIdx));
              toClt == old(toClt) + srvBuf[old(srvWriteIdx)..old(srvWriteIdx) + n]
      ensures code == WriteEnd(send, 0, old(srvReadIdx - srvWriteIdx))
      ensures code == BufferEmpty <==> srvReadIdx == 0
      ensures exists counts ::
        && WriteRun(send, 0, old(srvReadIdx - srvWriteIdx), counts, code)
        && Sum(counts) <= old(srvReadIdx - srvWriteIdx)
        && toClt == old(toClt) + srvBuf[old(srvWriteIdx)..old(srvWriteIdx) + Sum(counts)]
    {
      Indices();
      hide Valid, WriteRun, WriteSays, Sum, Leaves, WriteEnd, GoodSend, Conserves;
      ghost var n := srvReadIdx - srvWriteIdx;
      ghost var counts := WriteRuns(send, 0, n);
      code := DrainClt(send);
      assert WriteRun(send, 0, n, counts, code) && Sum(counts) == Leaves(send, 0, n) <= n;
    }
  }

  /** In each direction, what was sent is a prefix of what was received in this session,
      and the rest is exactly what the buffer holds. */
  lemma SentIsPrefix(c: Conn)
    requires c.Valid()
    ensures c.toSrv <= c.fromClt && c.fromClt[|c.toSrv|..] == c.cltBuf[c.cltWriteIdx..c.cltReadIdx]
    ensures c.toClt <= c.fromSrv && c.fromSrv[|c.toClt|..] == c.srvBuf[c.srvWriteIdx..c.srvReadIdx]
  {
  }
}
