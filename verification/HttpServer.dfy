/**
 The connection loop of the SSL demo server: passes around select over the list
 of open connections. The network is a parameter: what select, accept, the
 handshake, every read and every write answer.
 */
module HttpServer {
  import opened Bytes
  import opened HttpScan
  import opened HttpParser
  import opened HttpPass
  import opened HttpRuns
  import opened ConnLists
  import Rings

  const PS_PLATFORM_FAIL := -7
  const PS_TIMEOUT_FAIL := -13

  ghost function Listed(cp: HttpConn?): seq<HttpConn> {
    if cp == null then [] else [cp]
  }

  ghost function AlsoIn(who: set<HttpConn>, before: seq<HttpConn>, cp: HttpConn?): (r: set<HttpConn>)
    requires forall c | c in before :: c in who
    ensures forall c | c in before + Listed(cp) :: c in r
  {
    if cp == null then who else who + {cp}
  }

  lemma {:induction false} KeptAmong(all: seq<HttpConn>, outs: seq<Outcome>, who: set<HttpConn>)
    requires |all| == |outs| && forall c | c in all :: c in who
    ensures forall c | c in Kept(all, outs) :: c in who
  {
    forall c | c in Kept(all, outs) ensures c in who {
      if c !in all {
        KeptWithin(all, outs, c);
      }
    }
  }

  ghost function EntryOf(cp: HttpConn?): set<Rings.Node> {
    if cp == null then {} else {cp.entry}
  }

  // ----- Who owns which block -----

  /** The blocks a list of connections owns: each connection and its parse buffer. */
  ghost function Owned(cs: seq<HttpConn>): set<object>
    reads cs
  {
    if cs == [] then {} else {cs[0]} + cs[0].Blocks() + Owned(cs[1..])
  }

  /** No block is owned twice. */
  ghost predicate Apart(cs: seq<HttpConn>)
    reads cs
  {
    cs != [] ==> ({cs[0]} + cs[0].Blocks()) !! Owned(cs[1..]) && Apart(cs[1..])
  }

  lemma {:induction false} OwnedAppend(a: seq<HttpConn>, b: seq<HttpConn>)
    ensures Owned(a + b) == Owned(a) + Owned(b)
    ensures Apart(a + b) <==> Apart(a) && Apart(b) && Owned(a) !! Owned(b)
  {
    if a == [] {
      assert a + b == b;
    } else {
      assert (a + b)[1..] == a[1..] + b;
      OwnedAppend(a[1..], b);
    }
  }

  lemma {:induction false} OwnedContains(cs: seq<HttpConn>, i: nat)
    requires i < |cs|
    ensures cs[i] in Owned(cs) && cs[i].Blocks() <= Owned(cs)
  {
    if i > 0 {
      OwnedContains(cs[1..], i - 1);
    }
  }

  lemma {:induction false} OwnedAll(cs: seq<HttpConn>)
    ensures forall c | c in cs :: c in Owned(cs) && c.Blocks() <= Owned(cs)
  {
    forall c | c in cs ensures c in Owned(cs) && c.Blocks() <= Owned(cs) {
      var i :| 0 <= i < |cs| && cs[i] == c;
      OwnedContains(cs, i);
    }
  }

  predicate Distinct(cs: seq<HttpConn>) {
    cs != [] ==> cs[0] !in cs[1..] && Distinct(cs[1..])
  }

  lemma {:induction false} ApartDistinct(cs: seq<HttpConn>)
    requires Apart(cs)
    ensures Distinct(cs)
  {
    if cs != [] {
      OwnedAll(cs[1..]);
      ApartDistinct(cs[1..]);
    }
  }

  lemma {:induction false} DistinctMeans(cs: seq<HttpConn>)
    requires Distinct(cs)
    ensures forall i, j | 0 <= i < j < |cs| :: cs[i] != cs[j]
  {
    if cs != [] {
      DistinctMeans(cs[1..]);
      forall i, j | 0 <= i < j < |cs| ensures cs[i] != cs[j] {
        assert cs[j] == cs[1..][j - 1] && (i > 0 ==> cs[i] == cs[1..][i - 1]);
      }
    }
  }

  lemma {:induction false} OwnedMiddle(a: seq<HttpConn>, cp: HttpConn, b: seq<HttpConn>)
    ensures Owned(a + [cp] + b) == Owned(a + b) + {cp} + cp.Blocks()
    ensures Apart(a + [cp] + b) <==> Apart(a + b) && ({cp} + cp.Blocks()) !! Owned(a + b)
  {
    assert Owned([cp]) == {cp} + cp.Blocks() && Apart([cp]);
    OwnedAppend(a + [cp], b);
    OwnedAppend(a, [cp]);
    OwnedAppend(a, b);
  }

  // ----- What lists of connections show -----

  /** The connections' descriptors and lives. */
  ghost predicate Shows(cs: seq<HttpConn>, fds: seq<int>, lives: seq<Life>)
    ensures Shows(cs, fds, lives) ==> |fds| == |lives| == |cs|
    reads cs, set c | c in cs && c.parsebuf != null :: c.parsebuf
  {
    if cs == [] then fds == [] && lives == []
    else
      && fds != [] && lives != []
      && cs[0].fd == fds[0] && cs[0].Life() == lives[0]
      && Shows(cs[1..], fds[1..], lives[1..])
  }

  lemma {:induction false} ShowsSnoc(cs: seq<HttpConn>, fds: seq<int>, lives: seq<Life>, c: HttpConn)
    requires Shows(cs, fds, lives)
    ensures Shows(cs + [c], fds + [c.fd], lives + [c.Life()])
  {
    if cs == [] {
      assert cs + [c] == [c] && fds + [c.fd] == [c.fd] && lives + [c.Life()] == [c.Life()];
    } else {
      assert (cs + [c])[1..] == cs[1..] + [c];
      assert (fds + [c.fd])[1..] == fds[1..] + [c.fd];
      assert (lives + [c.Life()])[1..] == lives[1..] + [c.Life()];
      ShowsSnoc(cs[1..], fds[1..], lives[1..], c);
    }
  }

  lemma {:induction false} ShowsEach(cs: seq<HttpConn>, fds: seq<int>, lives: seq<Life>, c: HttpConn)
    requires Shows(cs, fds, lives) && c in cs
    ensures c.Life() in lives
  {
    if c != cs[0] {
      ShowsEach(cs[1..], fds[1..], lives[1..], c);
    }
  }

  lemma {:induction false} Show(cs: seq<HttpConn>) returns (fds: seq<int>, lives: seq<Life>)
    ensures Shows(cs, fds, lives)
  {
    fds, lives := [], [];
    if cs != [] {
      fds, lives := Show(cs[1..]);
      var f, l := [cs[0].fd] + fds, [cs[0].Life()] + lives;
      assert f[1..] == fds && l[1..] == lives;
      fds, lives := f, l;
    }
  }

  // ----- How far a pass has come -----

  /** All connections of a pass, their descriptors and outcomes, and those of them
      that are still to come. */
  datatype Whole = Whole(all: seq<HttpConn>, fds: seq<int>, outs: seq<Outcome>)

  /** The connections behind us: those kept, with their descriptors and lives, those
      closed, and the calls made for them. */
  datatype Behind = Behind(conns: seq<HttpConn>, fds: seq<int>, lives: seq<Life>, gone: seq<HttpConn>,
                           calls: seq<Call>)

  ghost predicate Progress(w: Whole, b: Behind, rest: seq<HttpConn>, fds: seq<int>, todo: seq<Outcome>) {
    && |w.all| == |w.fds| == |w.outs| && |rest| == |fds| == |todo| && (forall c | c in rest :: c in w.all)
    && b.conns + Kept(rest, todo) == Kept(w.all, w.outs)
    && b.fds + Kept(fds, todo) == Kept(w.fds, w.outs)
    && b.lives + KeptLives(todo) == KeptLives(w.outs)
    && b.gone + Dropped(rest, todo) == Dropped(w.all, w.outs)
    && b.calls + Closings(fds, todo) == Closings(w.fds, w.outs)
  }

  function Past(b: Behind, c: HttpConn, fd: int, o: Outcome): Behind {
    var calls := b.calls + Said(fd, o);
    if o.Keep? then Behind(b.conns + [c], b.fds + [fd], b.lives + [o.life], b.gone, calls)
    else b.(gone := b.gone + [c], calls := calls)
  }

  lemma {:induction false} StepKept<T>(before: seq<T>, rest: seq<T>, todo: seq<Outcome>, whole: seq<T>)
    requires |rest| == |todo| && rest != [] && before + Kept(rest, todo) == whole
    ensures (if todo[0].Keep? then before + [rest[0]] else before) + Kept(rest[1..], todo[1..]) == whole
  {
    OneMore(before, rest, todo);
  }

  lemma {:induction false} StepGone<T>(before: seq<T>, rest: seq<T>, todo: seq<Outcome>, whole: seq<T>)
    requires |rest| == |todo| && rest != [] && before + Dropped(rest, todo) == whole
    ensures (if todo[0].Keep? then before else before + [rest[0]]) + Dropped(rest[1..], todo[1..]) == whole
  {
    OneLess(before, rest, todo);
  }

  lemma {:induction false} StepLives(before: seq<Life>, todo: seq<Outcome>, whole: seq<Life>)
    requires todo != [] && before + KeptLives(todo) == whole
    ensures (if todo[0].Keep? then before + [todo[0].life] else before) + KeptLives(todo[1..]) == whole
  {
    Associate(before, if todo[0].Keep? then [todo[0].life] else [], KeptLives(todo[1..]));
  }

  lemma {:induction false} StepCalls(before: seq<Call>, fds: seq<int>, todo: seq<Outcome>, whole: seq<Call>)
    requires |fds| == |todo| && fds != [] && before + Closings(fds, todo) == whole
    ensures before + Said(fds[0], todo[0]) + Closings(fds[1..], todo[1..]) == whole
  {
    Associate(before, Said(fds[0], todo[0]), Closings(fds[1..], todo[1..]));
  }

  lemma {:induction false} ProgressStep(w: Whole, b: Behind, rest: seq<HttpConn>, fds: seq<int>, todo: seq<Outcome>)
    requires Progress(w, b, rest, fds, todo) && rest != []
    ensures rest[0] in w.all
    ensures Progress(w, Past(b, rest[0], fds[0], todo[0]), rest[1..], fds[1..], todo[1..])
  {
    StepKept(b.conns, rest, todo, Kept(w.all, w.outs));
    StepKept(b.fds, fds, todo, Kept(w.fds, w.outs));
    StepLives(b.lives, todo, KeptLives(w.outs));
    StepGone(b.gone, rest, todo, Dropped(w.all, w.outs));
    StepCalls(b.calls, fds, todo, Closings(w.fds, w.outs));
  }

  lemma {:induction false} ProgressDone(w: Whole, b: Behind, fds: seq<int>, todo: seq<Outcome>)
    requires Progress(w, b, [], fds, todo)
    ensures b.conns == Kept(w.all, w.outs) && b.fds == Kept(w.fds, w.outs)
    ensures b.lives == KeptLives(w.outs) && b.gone == Dropped(w.all, w.outs) && todo == [] && fds == []
    ensures b.calls == Closings(w.fds, w.outs)
  {
    assert b.lives + [] == b.lives && b.calls + [] == b.calls;
  }

  // ----- The server -----

  class SslServer {
    const lists: Lists
    var exitFlag: bool
    const recvBuf: array<byte>
    const heap: Heap
    var calls: seq<Call>
    ghost var leaked: set<object>
    ghost var gone: seq<HttpConn>   // the connections closed, in order

    /** The blocks in use are those of these connections, and those nobody will
        ever free; each belongs to one owner. */
    ghost predicate Holds(all: seq<HttpConn>)
      reads `leaked, heap, all, set c | c in all && c.parsebuf != null :: c.parsebuf
    {
      && recvBuf.Length == RECV_BUF_LEN && recvBuf !in heap.live
      && Rest(all, Owned(all))
      && leaked !! Owned(all) && heap.live == Owned(all) + leaked
    }

    /** Connections nothing happens to. */
    ghost predicate Rest(others: seq<HttpConn>, owned: set<object>)
      reads others, set c | c in others && c.parsebuf != null :: c.parsebuf
    {
      Owned(others) == owned && Apart(others) && forall c | c in others :: c.Valid()
    }

    /** Holds, with one connection not yet checked. */
    ghost predicate HoldsBut(cp: HttpConn, others: seq<HttpConn>, owned: set<object>)
      reads `leaked, heap, cp, others, set c | c in others && c.parsebuf != null :: c.parsebuf
    {
      && recvBuf.Length == RECV_BUF_LEN && recvBuf !in heap.live
      && Rest(others, owned)
      && ({cp} + cp.Blocks()) !! owned && leaked !! (owned + {cp} + cp.Blocks())
      && heap.live == owned + leaked + {cp} + cp.Blocks()
    }

    lemma {:induction false} TakeOut(a: seq<HttpConn>, cp: HttpConn, b: seq<HttpConn>)
      requires Holds(a + [cp] + b)
      ensures HoldsBut(cp, a + b, Owned(a + b)) && cp.Valid()
    {
      OwnedMiddle(a, cp, b);
      assert cp in a + [cp] + b;
    }

    lemma {:induction false} PutBack(a: seq<HttpConn>, cp: HttpConn, b: seq<HttpConn>, owned: set<object>)
      requires HoldsBut(cp, a + b, owned) && cp.Valid()
      ensures Holds(a + [cp] + b)
    {
      OwnedMiddle(a, cp, b);
      assert forall c | c in a + [cp] + b :: c == cp || c in a + b;
    }

    ghost predicate Valid()
      reads `leaked, heap, lists, lists.repr, lists.conns
      reads set c | c in lists.conns && c.parsebuf != null :: c.parsebuf
    {
      lists.Valid() && lists.detached == [] && Holds(lists.conns)
    }

    constructor ()
      ensures Valid() && lists.conns == [] && !exitFlag && calls == [] && gone == []
      ensures fresh(heap) && fresh(recvBuf) && fresh(lists)
    {
      exitFlag, calls, leaked, gone := false, [], {}, [];
      recvBuf := new byte[RECV_BUF_LEN];
      heap := new Heap();
      lists := new Lists();
    }

    // ----- One connection -----

    /** One read: its bytes go to the front of the buffer. */
    method Recv(data: seq<byte>)
      requires recvBuf.Length == RECV_BUF_LEN && |data| <= RECV_BUF_LEN
      modifies recvBuf
      ensures recvBuf[..] == ReadInto(old(recvBuf[..]), data)
    {
      forall i | 0 <= i < |data| {
        recvBuf[i] := data[i];
      }
    }

    /** A read, and the parser on the first len bytes of the buffer. */
    method Step(cp: HttpConn, data: seq<byte>, len: nat) returns (v: Verdict)
      requires recvBuf.Length == RECV_BUF_LEN && recvBuf !in heap.live && |data| <= RECV_BUF_LEN && len <= RECV_BUF_LEN
      requires cp.Valid() && cp.Blocks() <= heap.live
      modifies cp`parsebuf, cp`parsebuflen, cp`fed, recvBuf, heap
      ensures var p := Parse(old(cp.Life()), ReadInto(old(recvBuf[..]), data), len);
        && v == p.verdict && recvBuf[..] == p.buf
        && (!v.Error? ==> cp.Valid() && cp.Life() == p.life)
      ensures heap.live == old(heap.live) - old(cp.Blocks()) + cp.Blocks()
      ensures forall b | b in cp.Blocks() :: b in old(cp.Blocks()) || fresh(b)
    {
      Recv(data);
      v := cp.BasicParse(heap, recvBuf, len);
    }

    /** The reads that announce more data. */
    method ReadAnnounced(cp: HttpConn, more: seq<Part>) returns (failed: bool)
      requires recvBuf.Length == RECV_BUF_LEN && recvBuf !in heap.live
      requires cp.Valid() && cp.Blocks() <= heap.live
      modifies cp`parsebuf, cp`parsebuflen, cp`fed, recvBuf, heap
      ensures var p := Announced(old(cp.Life()), old(recvBuf[..]), more);
        && (failed <==> p.verdict.Error?) && recvBuf[..] == p.buf
        && (!failed ==> cp.Valid() && cp.Life() == p.life)
      ensures heap.live == old(heap.live) - old(cp.Blocks()) + cp.Blocks()
      ensures forall b | b in cp.Blocks() :: b in old(cp.Blocks()) || fresh(b)
    {
      var rest := more;
      while rest != []
        invariant cp.Valid() && cp.Blocks() <= heap.live && recvBuf !in heap.live
        invariant Announced(cp.Life(), recvBuf[..], rest) == Announced(old(cp.Life()), old(recvBuf[..]), more)
        invariant heap.live == old(heap.live) - old(cp.Blocks()) + cp.Blocks()
        invariant forall b | b in cp.Blocks() :: b in old(cp.Blocks()) || fresh(b)
        decreases |rest|
      {
        var v := Step(cp, rest[0], RECV_BUF_LEN);
        if v.Error? {
          return true;
        }
        rest := rest[1..];
      }
      failed := false;
    }

    /** Sends the response. */
    method WriteResponse(cp: HttpConn, writeOk: bool) returns (rc: int)
      modifies `calls
      ensures (rc < 0 <==> !writeOk) && calls == old(calls) + [Respond(cp.fd)]
    {
      calls := calls + [Respond(cp.fd)];
      rc := if writeOk then 0 else -1;
    }

    /** What the parser's last answer leads to. */
    method Conclude(cp: HttpConn, v: Verdict, writeOk: bool) returns (keep: bool, reason: int)
      requires !v.Error? ==> cp.Valid() && (v.Complete? ==> cp.Line() == [])
      modifies `exitFlag, `calls
      ensures var o := Answer(v, cp.Life(), writeOk);
        && (if keep then o == Keep(cp.Life()) else o.Close? && reason == o.reason)
        && exitFlag == (old(exitFlag) || (o.Close? && o.shutdown))
        && calls == old(calls) + Responses(cp.fd, o)
    {
      assert calls + [] == calls;
      if v.Error? {
        return false, PS_PROTOCOL_FAIL;
      }
      if cp.parsebuf != null && SHUTDOWN <= cp.parsebuf[..] {
        exitFlag := true;
        return false, PS_ARG_FAIL;
      }
      if v.Complete? {
        var rc := WriteResponse(cp, writeOk);
        return false, if rc < 0 then PS_PROTOCOL_FAIL else PS_SUCCESS;
      }
      return true, 0;
    }

    /** The last read of a connection in a pass, and its parse. */
    method ReadLast(cp: HttpConn, last: Read) returns (v: Verdict)
      requires recvBuf.Length == RECV_BUF_LEN && recvBuf !in heap.live && !last.Failed?
      requires cp.Valid() && cp.Blocks() <= heap.live
      modifies cp`parsebuf, cp`parsebuflen, cp`fed, recvBuf, heap
      ensures var q := Final(old(cp.Life()), old(recvBuf[..]), last);
        && v == q.verdict && recvBuf[..] == q.buf
        && (!v.Error? ==> cp.Valid() && cp.Life() == q.life)
      ensures heap.live == old(heap.live) - old(cp.Blocks()) + cp.Blocks()
      ensures forall b | b in cp.Blocks() :: b in old(cp.Blocks()) || fresh(b)
    {
      if last.Data? {
        v := Step(cp, last.data, |last.data|);
      } else {
        assert ReadInto(recvBuf[..], []) == recvBuf[..];
        v := Step(cp, [], RECV_BUF_LEN);
      }
    }

    /** Reads and parses for one readable connection, and answers it once its request is
        complete; reason is why it is to be closed. */
    method ServeConn(cp: HttpConn, io: ConnIo) returns (keep: bool, reason: int)
      requires recvBuf.Length == RECV_BUF_LEN && recvBuf !in heap.live
      requires cp.Valid() && cp.Blocks() <= heap.live
      modifies cp`parsebuf, cp`parsebuflen, cp`fed, recvBuf, heap, `exitFlag, `calls
      ensures var d := Serve(old(cp.Life()), old(recvBuf[..]), io);
        && recvBuf[..] == d.buf && (keep <==> d.outcome.Keep?)
        && (if keep then cp.Valid() && cp.Life() == d.outcome.life else reason == d.outcome.reason)
        && exitFlag == (old(exitFlag) || (d.outcome.Close? && d.outcome.shutdown))
        && calls == old(calls) + Responses(cp.fd, d.outcome)
      ensures heap.live == old(heap.live) - old(cp.Blocks()) + cp.Blocks()
      ensures forall b | b in cp.Blocks() :: b in old(cp.Blocks()) || fresh(b)
    {
      assert calls + [] == calls;
      var failed := ReadAnnounced(cp, io.burst.more);
      if failed {
        return false, PS_PROTOCOL_FAIL;
      }
      if io.burst.last.Failed? {
        return false, PS_ARG_FAIL;
      }
      var v := ReadLast(cp, io.burst.last);
      keep, reason := Conclude(cp, v, io.writeOk);
    }

    /** Nothing another connection shows lies in what serving cp writes to. */
    lemma {:induction false} Elsewhere(cp: HttpConn, others: seq<HttpConn>, owned: set<object>)
      requires HoldsBut(cp, others, owned)
      ensures forall c | c in others :: c != cp && c.parsebuf != recvBuf && c in owned && c.Blocks() <= owned
    {
      OwnedAll(others);
    }

    /** Serves one connection among others, which stay as they are. */
    method ServeAmong(cp: HttpConn, io: ConnIo, ghost others: seq<HttpConn>, ghost owned: set<object>, ghost d: Served)
      returns (keep: bool, reason: int)
      requires HoldsBut(cp, others, owned) && cp.Valid() && d == Serve(cp.Life(), recvBuf[..], io)
      modifies cp`parsebuf, cp`parsebuflen, cp`fed, recvBuf, heap, `exitFlag, `calls
      ensures recvBuf[..] == d.buf && (keep <==> d.outcome.Keep?)
      ensures if keep then cp.Valid() && cp.Life() == d.outcome.life else reason == d.outcome.reason
      ensures exitFlag == (old(exitFlag) || (d.outcome.Close? && d.outcome.shutdown))
      ensures calls == old(calls) + Responses(cp.fd, d.outcome)
      ensures HoldsBut(cp, others, owned)
    {
      Elsewhere(cp, others, owned);
      keep, reason := ServeConn(cp, io);
      assert Rest(others, owned);
    }

    /** Closes the session and the descriptor, and frees the connection and what it owns. */
    method Release(cp: HttpConn, reason: int)
      requires cp in heap.live && cp.Blocks() <= heap.live
      modifies heap, cp`parsebuflen, `calls, `gone
      ensures heap.live == old(heap.live) - {cp} - cp.Blocks()
      ensures calls == old(calls) + Closing(cp.fd, reason) && gone == old(gone) + [cp]
    {
      calls := calls + [CloseSession(cp.fd)];
      if cp.parsebuf != null {
        heap.Free(cp.parsebuf);
        cp.parsebuflen := 0;
      }
      if cp.fd != INVALID_SOCKET {
        calls := calls + [CloseSocket(cp.fd)];
      }
      calls := calls + [Report(cp.fd, reason)];
      gone := gone + [cp];
      heap.Free(cp);
    }

    /** Releases a connection among others, which stay as they are. */
    method FreeConn(cp: HttpConn, reason: int, ghost others: seq<HttpConn>, ghost owned: set<object>)
      requires HoldsBut(cp, others, owned)
      modifies heap, cp`parsebuflen, `calls, `gone
      ensures Holds(others) && calls == old(calls) + Closing(cp.fd, reason) && gone == old(gone) + [cp]
    {
      Elsewhere(cp, others, owned);
      Release(cp, reason);
      assert Rest(others, owned);
    }

    /** Takes the connection at place k out of the list, closes and frees it. */
    method CloseConn(cp: HttpConn, reason: int, ghost k: nat, ghost others: seq<HttpConn>, ghost owned: set<object>)
      requires lists.Valid() && k < |lists.conns| && lists.conns[k] == cp
      requires HoldsBut(cp, others, owned)
      modifies lists, lists.repr, heap, cp`parsebuflen, `calls, `gone
      ensures lists.Valid() && lists.conns == Rings.Without(old(lists.conns), k)
      ensures lists.detached == old(lists.detached) && lists.repr == old(lists.repr)
      ensures Holds(others) && calls == old(calls) + Closing(cp.fd, reason) && gone == old(gone) + [cp]
    {
      lists.Remove(cp, k);
      FreeConn(cp, reason, others, owned);
    }

    /** The first connection still to come goes to the end of the list. */
    method NextConn(ghost others: seq<HttpConn>) returns (cp: HttpConn)
      requires lists.Valid() && lists.detached != [] && Holds(lists.conns + lists.detached)
      requires others == lists.conns + lists.detached[1..]
      modifies lists, lists.repr
      ensures lists.Valid() && lists.repr == old(lists.repr)
      ensures cp == old(lists.detached[0]) && lists.detached == old(lists.detached)[1..]
      ensures lists.conns == old(lists.conns) + [cp]
      ensures HoldsBut(cp, others, Owned(others)) && cp.Valid() && cp.Life() == old(lists.detached[0].Life())
    {
      ghost var kept, first, rest := lists.conns, lists.detached[0], lists.detached[1..];
      assert kept + lists.detached == kept + [first] + rest;
      TakeOut(kept, first, rest);
      cp := lists.Reattach();
    }

    /** Serves the last connection of the list, if it is readable. */
    method ServeLast(cp: HttpConn, ready: set<int>, io: ConnIo, ghost others: seq<HttpConn>, ghost owned: set<object>,
                     ghost d: Served)
      returns (keep: bool, reason: int)
      requires lists.Valid() && HoldsBut(cp, others, owned) && cp.Valid()
      requires d == Decide(cp.fd, cp.Life(), recvBuf[..], ready, io)
      modifies cp`parsebuf, cp`parsebuflen, cp`fed, recvBuf, heap, `exitFlag, `calls
      ensures lists.Valid() && lists.conns == old(lists.conns) && lists.detached == old(lists.detached)
      ensures recvBuf[..] == d.buf && (keep <==> d.outcome.Keep?)
      ensures if keep then cp.Valid() && cp.Life() == d.outcome.life else reason == d.outcome.reason
      ensures exitFlag == (old(exitFlag) || (d.outcome.Close? && d.outcome.shutdown))
      ensures calls == old(calls) + Responses(cp.fd, d.outcome)
      ensures HoldsBut(cp, others, owned)
    {
      keep, reason := true, 0;
      assert calls + [] == calls;
      if cp.fd in ready {
        keep, reason := ServeAmong(cp, io, others, owned, d);
      }
    }

    /** Serves the last connection of the list, if it is readable, and closes it if it has to. */
    method ServeOrClose(cp: HttpConn, ready: set<int>, io: ConnIo, ghost kept: seq<HttpConn>, ghost rest: seq<HttpConn>,
                        ghost owned: set<object>, ghost d: Served)
      requires lists.Valid() && lists.conns == kept + [cp] && lists.detached == rest
      requires HoldsBut(cp, kept + rest, owned) && cp.Valid()
      requires d == Decide(cp.fd, cp.Life(), recvBuf[..], ready, io)
      modifies lists, lists.repr, cp, recvBuf, heap, `exitFlag, `calls, `gone
      ensures recvBuf[..] == d.buf && (d.outcome.Keep? ==> cp.Life() == d.outcome.life)
      ensures exitFlag == (old(exitFlag) || (d.outcome.Close? && d.outcome.shutdown))
      ensures calls == old(calls) + Responses(cp.fd, d.outcome)
                       + if d.outcome.Keep? then [] else Closing(cp.fd, d.outcome.reason)
      ensures gone == if d.outcome.Keep? then old(gone) else old(gone) + [cp]
      ensures lists.Valid() && lists.repr == old(lists.repr) && lists.detached == rest
      ensures if d.outcome.Keep? then lists.conns == kept + [cp] && HoldsBut(cp, kept + rest, owned) && cp.Valid()
              else lists.conns == kept && Holds(kept + rest)
    {
      var keep, reason := ServeLast(cp, ready, io, kept + rest, owned, d);
      assert calls + [] == calls;
      if !keep {
        CloseConn(cp, reason, |kept|, kept + rest, owned);
        assert Rings.Without(kept + [cp], |kept|) == kept;
      }
    }

    /** The first connection still to come goes to the end of the list, is served if
        it is readable, and leaves the list again if that closes it: d is what is
        decided for it. */
    method ServeNext(ready: set<int>, io: ConnIo, ghost first: HttpConn, ghost d: Served)
      requires lists.Valid() && lists.detached != [] && Holds(lists.conns + lists.detached)
      requires first == lists.detached[0] && d == Decide(first.fd, first.Life(), recvBuf[..], ready, io)
      modifies lists, lists.repr, first, recvBuf, heap, `exitFlag, `calls, `gone
      ensures lists.Valid() && lists.repr == old(lists.repr) && Holds(lists.conns + lists.detached)
      ensures lists.detached == old(lists.detached)[1..] && recvBuf[..] == d.buf
      ensures lists.conns == if d.outcome.Keep? then old(lists.conns) + [first] else old(lists.conns)
      ensures d.outcome.Keep? ==> first.Life() == d.outcome.life
      ensures exitFlag == (old(exitFlag) || (d.outcome.Close? && d.outcome.shutdown))
      ensures calls == old(calls) + Said(first.fd, d.outcome)
      ensures gone == if d.outcome.Keep? then old(gone) else old(gone) + [first]
    {
      ghost var kept, rest := lists.conns, lists.detached[1..];
      ghost var owned := Owned(kept + rest);
      var c := NextConn(kept + rest);
      Associate(calls, Responses(c.fd, d.outcome), if d.outcome.Keep? then [] else Closing(c.fd, d.outcome.reason));
      ServeOrClose(c, ready, io, kept, rest, owned, d);
      if d.outcome.Keep? {
        PutBack(kept, c, rest, owned);
      }
    }

    // ----- All connections of a pass -----

    lemma {:induction false} OthersElsewhere(kept: seq<HttpConn>, first: HttpConn, rest: seq<HttpConn>)
      requires Holds(kept + [first] + rest)
      ensures forall c | c in kept || c in rest :: c != first && c.parsebuf != recvBuf
    {
      TakeOut(kept, first, rest);
      Elsewhere(first, kept + rest, Owned(kept + rest));
      assert forall c | c in kept || c in rest :: c in kept + rest;
    }

    /** ServeNext, with what the connections show that it leaves alone. */
    method ServeApart(ready: set<int>, io: ConnIo, ghost b: Behind, ghost first: HttpConn, ghost rest: seq<HttpConn>,
                      ghost fds: seq<int>, ghost lives: seq<Life>, ghost d: Served)
      requires lists.Valid() && lists.conns == b.conns && lists.detached == [first] + rest
      requires Holds(b.conns + [first] + rest)
      requires Shows(b.conns, b.fds, b.lives) && Shows(rest, fds, lives)
      requires d == Decide(first.fd, first.Life(), recvBuf[..], ready, io)
      modifies lists, lists.repr, first, recvBuf, heap, `exitFlag, `calls, `gone
      ensures lists.Valid() && lists.repr == old(lists.repr) && Holds(lists.conns + lists.detached)
      ensures lists.detached == rest && recvBuf[..] == d.buf
      ensures lists.conns == if d.outcome.Keep? then b.conns + [first] else b.conns
      ensures d.outcome.Keep? ==> first.Life() == d.outcome.life
      ensures Shows(b.conns, b.fds, b.lives) && Shows(rest, fds, lives)
      ensures exitFlag == (old(exitFlag) || (d.outcome.Close? && d.outcome.shutdown))
      ensures calls == old(calls) + Said(first.fd, d.outcome)
      ensures gone == if d.outcome.Keep? then old(gone) else old(gone) + [first]
    {
      OthersElsewhere(b.conns, first, rest);
      Associate(b.conns, [first], rest);
      ServeNext(ready, io, first, d);
    }

    /** ServeNext, with what all connections show: d is what is decided for the first,
        said and left the calls made and the connections closed before the pass. */
    method ServeHead(ready: set<int>, io: ConnIo, ghost b: Behind, ghost fds: seq<int>, ghost lives: seq<Life>,
                     ghost d: Served, ghost said: seq<Call>, ghost left: seq<HttpConn>)
      requires lists.Valid() && lists.detached != [] && Holds(lists.conns + lists.detached)
      requires Shows(lists.conns, b.fds, b.lives) && Shows(lists.detached, fds, lives) && lists.conns == b.conns
      requires d == Decide(fds[0], lives[0], recvBuf[..], ready, io)
      requires calls == said + b.calls && gone == left + b.gone
      modifies lists, lists.repr, lists.detached[0], recvBuf, heap, `exitFlag, `calls, `gone
      ensures lists.Valid() && lists.repr == old(lists.repr) && Holds(lists.conns + lists.detached)
      ensures lists.detached == old(lists.detached)[1..] && recvBuf[..] == d.buf
      ensures var p := Past(b, old(lists.detached[0]), fds[0], d.outcome);
        && lists.conns == p.conns && Shows(lists.conns, p.fds, p.lives)
        && calls == said + p.calls && gone == left + p.gone
      ensures Shows(lists.detached, fds[1..], lives[1..])
      ensures exitFlag == (old(exitFlag) || (d.outcome.Close? && d.outcome.shutdown))
    {
      ghost var first, rest := lists.detached[0], lists.detached[1..];
      assert lists.detached == [first] + rest;
      Associate(b.conns, [first], rest);
      Associate(said, b.calls, Said(fds[0], d.outcome));
      Associate(left, b.gone, [first]);
      ServeApart(ready, io, b, first, rest, fds[1..], lives[1..], d);
      if d.outcome.Keep? {
        ShowsSnoc(b.conns, b.fds, b.lives, first);
      }
    }

    /** A pass over the connections all has come to these outcomes, when before it this
        had been asked, called and closed: each connection stays or is closed as its
        outcome says, in order, and leads the life it says. */
    ghost predicate Passed(asked: bool, said: seq<Call>, left: seq<HttpConn>, all: seq<HttpConn>, fds: seq<int>,
                           outs: seq<Outcome>)
      reads `exitFlag, `calls, `gone, lists, lists.conns
      reads set c | c in lists.conns && c.parsebuf != null :: c.parsebuf
    {
      && |all| == |fds| == |outs| && Distinct(all)
      && lists.conns == Kept(all, outs) && gone == left + Dropped(all, outs)
      && Shows(lists.conns, Kept(fds, outs), KeptLives(outs))
      && exitFlag == (asked || AsksShutdown(outs))
      && calls == said + Closings(fds, outs)
    }

    /** Where a pass is that has come to b: f, l and todo belong to the connections still to come. */
    ghost predicate Halfway(w: Whole, b: Behind, f: seq<int>, l: seq<Life>, todo: seq<Outcome>, judge: Decider,
                            k: nat, left: Buffer)
      reads `leaked, heap, lists, lists.repr, lists.conns, lists.detached, recvBuf
      reads set c | c in lists.conns + lists.detached && c.parsebuf != null :: c.parsebuf
    {
      && lists.Valid() && Holds(lists.conns + lists.detached)
      && Progress(w, b, lists.detached, f, todo) && lists.conns == b.conns
      && Shows(lists.conns, b.fds, b.lives) && Shows(lists.detached, f, l)
      && Planned(judge, f, l, recvBuf[..], k, todo, left)
    }

    /** One round of the service loop. */
    method ServeRound(ready: set<int>, io: nat -> ConnIo, k: nat, ghost w: Whole, ghost b: Behind, ghost f: seq<int>,
                      ghost l: seq<Life>, ghost todo: seq<Outcome>, ghost left: Buffer, ghost said: seq<Call>,
                      ghost before: seq<HttpConn>)
      returns (ghost after: Behind)
      requires Halfway(w, b, f, l, todo, Deciding(ready, io), k, left) && lists.detached != []
      requires calls == said + b.calls && gone == before + b.gone
      modifies lists, lists.repr, lists.detached[0], recvBuf, heap, `exitFlag, `calls, `gone
      ensures Halfway(w, after, f[1..], l[1..], todo[1..], Deciding(ready, io), k + 1, left)
      ensures calls == said + after.calls && gone == before + after.gone
      ensures exitFlag == (old(exitFlag) || (todo[0].Close? && todo[0].shutdown))
      ensures lists.repr == old(lists.repr) && lists.detached == old(lists.detached)[1..]
    {
      ghost var first, d := lists.detached[0], Decide(f[0], l[0], recvBuf[..], ready, io(k));
      ProgressStep(w, b, lists.detached, f, todo);
      PlannedStep(Deciding(ready, io), f, l, recvBuf[..], k, todo, left);
      ServeHead(ready, io(k), b, f, l, d, said, before);
      after := Past(b, first, f[0], d.outcome);
    }

    /** The service loop: moves every connection of the pass to the list, in order,
        serving the readable ones and closing those that end. */
    method ServeAll(ready: set<int>, io: nat -> ConnIo, ghost all: seq<HttpConn>, ghost who: set<HttpConn>,
                    ghost fds: seq<int>, ghost lives: seq<Life>, ghost buf: Buffer, ghost outs: seq<Outcome>,
                    ghost left: Buffer)
      requires lists.Valid() && lists.conns == [] && lists.detached == all && Holds(all)
      requires forall c | c in all :: c in who
      requires Shows(lists.detached, fds, lives) && recvBuf[..] == buf
      requires Planned(Deciding(ready, io), fds, lives, buf, 0, outs, left)
      modifies lists, lists.repr, who, recvBuf, heap, `exitFlag, `calls, `gone
      ensures Valid() && lists.repr == old(lists.repr) && recvBuf[..] == left
      ensures Passed(old(exitFlag), old(calls), old(gone), all, fds, outs)
    {
      var i := 0;
      ghost var w, b := Whole(all, fds, outs), Behind([], [], [], [], []);
      ghost var f, l, todo, said, before := fds, lives, outs, calls, gone;
      ApartDistinct(all);
      assert [] + all == all && said + [] == said && before + [] == before;
      while !lists.NoneDetached()
        invariant Halfway(w, b, f, l, todo, Deciding(ready, io), i, left)
        invariant exitFlag || AsksShutdown(todo) <==> old(exitFlag) || AsksShutdown(outs)
        invariant calls == said + b.calls && gone == before + b.gone && lists.repr == old(lists.repr)
        decreases |lists.detached|
      {
        assert lists.detached[0] in all && todo != [];
        b := ServeRound(ready, io, i, w, b, f, l, todo, left, said, before);
        i, f, l, todo := i + 1, f[1..], l[1..], todo[1..];
      }
      ProgressDone(w, b, f, todo);
      assert lists.conns + [] == lists.conns;
    }

    /** Behind a pass every connection is in the list or was closed, once, and which of
        the two its own outcome says. */
    lemma {:induction false} Accounted(asked: bool, said: seq<Call>, left: seq<HttpConn>, all: seq<HttpConn>,
                                       fds: seq<int>, outs: seq<Outcome>, i: nat)
      requires Passed(asked, said, left, all, fds, outs) && i < |all|
      ensures |left| <= |gone| && gone[..|left|] == left
      ensures multiset(lists.conns) + multiset(gone[|left|..]) == multiset(all)
      ensures all[i] in lists.conns <==> outs[i].Keep?
      ensures all[i] in gone[|left|..] <==> outs[i].Close?
    {
      assert gone[|left|..] == Dropped(all, outs);
      Conservation(all, outs);
      DistinctMeans(all);
      KeptExactly(all, outs, i);
    }

    // ----- A pass -----

    lemma {:induction false} HoldsMore(all: seq<HttpConn>, cp: HttpConn, before: set<object>)
      requires recvBuf.Length == RECV_BUF_LEN && recvBuf !in heap.live && recvBuf !in before
      requires Rest(all, Owned(all)) && leaked !! Owned(all) && before == Owned(all) + leaked
      requires cp !in before && cp.Blocks() == {} && cp.Valid() && heap.live == before + {cp}
      ensures Holds(all + [cp])
    {
      OwnedMiddle(all, cp, []);
      assert all + [cp] + [] == all + [cp] && all + [] == all;
    }

    /** A record for a new connection. */
    method NewConn(fd: int, ghost all: seq<HttpConn>) returns (cp: HttpConn)
      requires Holds(all)
      modifies heap
      ensures fresh(cp) && fresh(cp.entry) && cp.fd == fd && cp.Life() == NEW_LIFE && Holds(all + [cp])
    {
      ghost var before, owned := heap.live, Owned(all);
      cp := new HttpConn(fd);
      heap.Track(cp);
      assert Rest(all, owned);
      HoldsMore(all, cp, before);
    }

    /** A connection whose handshake succeeded joins the list of the pass. */
    method Join(fd: int) returns (cp: HttpConn)
      requires lists.Valid() && lists.conns == [] && Holds(lists.detached)
      modifies lists, lists.repr, heap
      ensures fresh(cp) && cp.fd == fd && cp.Life() == NEW_LIFE
      ensures lists.Valid() && lists.conns == [] && lists.detached == old(lists.detached) + [cp]
      ensures lists.repr == old(lists.repr) + {cp.entry} && fresh(cp.entry)
      ensures Holds(lists.detached)
    {
      ghost var before := lists.detached;
      cp := NewConn(fd, before);
      ghost var all := before + [cp];
      ghost var owned := Owned(all);
      lists.Join(cp);
      assert lists.detached == all;
      assert Rest(all, owned);
    }

    /** A connection whose handshake fails is closed and dropped without freeing its record. */
    method Refuse(fd: int, ghost all: seq<HttpConn>) returns (ghost lost: object)
      requires Holds(all)
      modifies heap, `leaked, `calls
      ensures fresh(lost) && leaked == old(leaked) + {lost} && Holds(all)
      ensures calls == old(calls) + [CloseSocket(fd)]
    {
      ghost var owned := Owned(all);
      var cp := new HttpConn(fd);
      heap.Track(cp);
      calls := calls + [CloseSocket(fd)];
      leaked := leaked + {cp};
      lost := cp;
      assert Rest(all, owned);
    }

    /** Who came: a new connection, or the record of a failed handshake, which is the
        only block nobody will free. */
    twostate predicate Came(incoming: Incoming, new joined: HttpConn?, new lost: object?)
      reads `leaked
    {
      && (joined != null <==> incoming.Joined?)
      && (joined != null ==> fresh(joined) && fresh(joined.entry))
      && (if incoming.HandshakeFailed? then lost != null && fresh(lost) && leaked == old(leaked) + {lost}
          else leaked == old(leaked))
    }

    /** Accepts at most one connection; the record of a failed handshake is lost. */
    method Accept(incoming: Incoming, ghost before: seq<HttpConn>, ghost fds: seq<int>, ghost lives: seq<Life>)
      returns (ghost joined: HttpConn?, ghost lost: object?)
      requires lists.Valid() && lists.conns == [] && lists.detached == before && Holds(before)
      requires Shows(before, fds, lives)
      modifies lists, lists.repr, heap, `leaked, `calls
      ensures Came(incoming, joined, lost)
      ensures lists.Valid() && lists.conns == [] && lists.detached == before + Listed(joined)
      ensures lists.repr == old(lists.repr) + EntryOf(joined) && Holds(before + Listed(joined))
      ensures Shows(before + Listed(joined), fds + JoinedFd(incoming), lives + JoinedLife(incoming))
      ensures calls == old(calls) + Refusal(incoming)
    {
      joined, lost := null, null;
      assert before + [] == before && fds + [] == fds && lives + [] == lives && calls + [] == calls;
      match incoming {
        case Joined(fd) =>
          var cp := Join(fd);
          ShowsSnoc(before, fds, lives, cp);
          joined := cp;
        case HandshakeFailed(fd) =>
          lost := Refuse(fd, before);
        case Nothing =>
      }
    }

    /** After select reported something: accepts at most one connection, then
        serves every readable one. f and l are what the connections of the pass show,
        outs and left what it comes to. */
    method Attend(incoming: Incoming, ready: set<int>, io: nat -> ConnIo, ghost before: seq<HttpConn>,
                  ghost who: set<HttpConn>, ghost fds: seq<int>, ghost lives: seq<Life>, ghost f: seq<int>,
                  ghost l: seq<Life>, ghost buf: Buffer, ghost outs: seq<Outcome>, ghost left: Buffer)
      returns (ghost joined: HttpConn?, ghost lost: object?)
      requires lists.Valid() && lists.conns == [] && lists.detached == before && Holds(before)
      requires Shows(before, fds, lives) && forall c | c in before :: c in who
      requires f == fds + JoinedFd(incoming) && l == lives + JoinedLife(incoming)
      requires recvBuf[..] == buf && Planned(Deciding(ready, io), f, l, buf, 0, outs, left)
      modifies lists, lists.repr, who, recvBuf, heap, `exitFlag, `leaked, `calls, `gone
      ensures Came(incoming, joined, lost)
      ensures Valid() && lists.repr == old(lists.repr) + EntryOf(joined) && recvBuf[..] == left
      ensures Passed(old(exitFlag), old(calls) + Refusal(incoming), old(gone), before + Listed(joined), f, outs)
    {
      joined, lost := Accept(incoming, before, fds, lives);
      ghost var all, any := before + Listed(joined), AlsoIn(who, before, joined);
      ServeAll(ready, io, all, any, f, l, buf, outs, left);
    }

    /** Moves every connection to the list of the pass; nfds is what select is called with. */
    method Watch(lfd: int, ghost before: seq<HttpConn>, ghost fds: seq<int>, ghost lives: seq<Life>) returns (nfds: int)
      requires Valid() && lists.conns == before && Shows(before, fds, lives)
      modifies lists, lists.repr
      ensures lists.Valid() && lists.conns == [] && lists.detached == before && lists.repr == old(lists.repr)
      ensures Holds(before) && Shows(before, fds, lives) && IsBound(nfds, lfd, before)
    {
      ghost var owned := Owned(before);
      nfds := lists.DetachAll(lfd);
      assert Rest(before, owned);
    }

    /** Moves every connection back. */
    method Restore(ghost before: seq<HttpConn>, ghost fds: seq<int>, ghost lives: seq<Life>)
      requires lists.Valid() && lists.conns == [] && lists.detached == before
      requires Holds(before) && Shows(before, fds, lives)
      modifies lists, lists.repr
      ensures Valid() && lists.conns == before && lists.repr == old(lists.repr) && Shows(before, fds, lives)
    {
      ghost var owned := Owned(before);
      lists.ReattachAll();
      assert Rest(before, owned);
    }

    /** What there is to see of the server between two passes. */
    ghost predicate Displays(s: Shown)
      reads `exitFlag, `calls, lists, lists.conns, recvBuf
      reads set c | c in lists.conns && c.parsebuf != null :: c.parsebuf
      ensures Displays(s) ==> |s.fds| == |s.lives|
    {
      && Shows(lists.conns, s.fds, s.lives)
      && recvBuf[..] == s.buf && exitFlag == s.asked && calls == s.calls
    }

    /** One pass from what s shows: waits in select, accepts at most one connection,
        serves every readable one. who has at least the old connections in it. */
    method SelectLoop(p: Pass, ghost who: set<HttpConn>, ghost s: Shown)
      returns (rc: int, nfds: int, ghost joined: HttpConn?, ghost lost: object?)
      requires Valid() && Displays(s) && forall c | c in lists.conns :: c in who
      modifies lists, lists.repr, who, recvBuf, heap, `exitFlag, `leaked, `calls, `gone
      ensures Valid() && Displays(AfterPass(p, s)) && IsBound(nfds, p.lfd, old(lists.conns))
      ensures lists.repr == old(lists.repr) + EntryOf(joined)
      ensures joined != null ==> fresh(joined) && fresh(joined.entry)
      ensures p.val <= 0 ==> rc == if p.val == 0 || p.interrupted then -13 else -7
      ensures p.val <= 0 ==> lists.conns == old(lists.conns) && joined == null && gone == old(gone)
      ensures p.val <= 0 ==> leaked == old(leaked)
      ensures p.val > 0 ==> rc == 0 && Came(Incomer(p), joined, lost)
      ensures p.val > 0 ==>
        Passed(s.asked, s.calls + Refusal(Incomer(p)), old(gone), old(lists.conns) + Listed(joined),
               PassFds(p, s.fds), PassOuts(p, s.fds, s.lives, s.buf))
    {
      ghost var before := lists.conns;
      nfds := Watch(p.lfd, before, s.fds, s.lives);
      joined, lost := null, null;
      if p.val <= 0 {
        Restore(before, s.fds, s.lives);
        rc := if p.val == 0 || p.interrupted then PS_TIMEOUT_FAIL else PS_PLATFORM_FAIL;
        return;
      }
      joined, lost := Attend(Incomer(p), p.ready, p.io, before, who, s.fds, s.lives, PassFds(p, s.fds),
                             s.lives + JoinedLife(Incomer(p)), s.buf, PassOuts(p, s.fds, s.lives, s.buf),
                             PassBuf(p, s.fds, s.lives, s.buf));
      rc := PS_SUCCESS;
    }

    /** One more pass, and the connections there may be behind it. */
    method OnePass(p: Pass, ghost who: set<HttpConn>, ghost s: Shown)
      returns (ghost any: set<HttpConn>, ghost nodes: set<Rings.Node>)
      requires Valid() && Displays(s) && forall c | c in lists.conns :: c in who
      modifies lists, lists.repr, who, recvBuf, heap, `exitFlag, `leaked, `calls, `gone
      ensures Valid() && Displays(AfterPass(p, s)) && nodes == lists.repr
      ensures forall c | c in lists.conns :: c in any
      ensures forall c | c in any :: c in who || fresh(c)
      ensures forall n | n in nodes :: n in old(lists.repr) || fresh(n)
    {
      ghost var before := lists.conns;
      var rc, nfds;
      ghost var joined, lost;
      rc, nfds, joined, lost := SelectLoop(p, who, s);
      any, nodes := AlsoIn(who, before, joined), lists.repr;
      if p.val > 0 {
        KeptAmong(before + Listed(joined), PassOuts(p, s.fds, s.lives, s.buf), any);
      }
    }

    /** Pass after pass, until one asks for the server to stop: from what s shows, the
        server comes to show what the passes come to one after another, and every open
        connection holds the pending line of all bytes fed to it since it was opened or
        last completed a request, which decide nothing yet. */
    method ServerIdle(passes: seq<Pass>, ghost s: Shown)
      requires Valid() && Displays(s)
      modifies lists, lists.repr, lists.conns, recvBuf, heap, `exitFlag, `leaked, `calls, `gone
      ensures Valid() && Displays(AfterPasses(passes, s))
      ensures AllCoherent(s.lives) ==>
        forall c | c in lists.conns :: Scan(Concat(c.fed)).Partial? && c.Line() == Pending(Concat(c.fed))
    {
      var todo := passes;
      ghost var t, nodes, who := s, lists.repr, set c | c in lists.conns;
      while todo != [] && !exitFlag
        invariant Valid() && nodes == lists.repr
        invariant Displays(t)
        invariant AfterPasses(todo, t) == AfterPasses(passes, s)
        invariant forall c | c in lists.conns :: c in who
        invariant forall c | c in who :: c in old(lists.conns) || fresh(c)
        invariant forall n | n in nodes :: n in old(lists.repr) || fresh(n)
      {
        who, nodes := OnePass(todo[0], who, t);
        t, todo := AfterPass(todo[0], t), todo[1..];
      }
      if AllCoherent(s.lives) {
        OpenMeans(passes, s);
      }
    }

    lemma {:induction false} OpenMeans(passes: seq<Pass>, s: Shown)
      requires |s.fds| == |s.lives| && AllCoherent(s.lives) && Displays(AfterPasses(passes, s))
      ensures forall c | c in lists.conns :: Scan(Concat(c.fed)).Partial? && c.Line() == Pending(Concat(c.fed))
    {
      var t := AfterPasses(passes, s);
      forall c | c in lists.conns ensures Scan(Concat(c.fed)).Partial? && c.Line() == Pending(Concat(c.fed)) {
        ShowsEach(lists.conns, t.fds, t.lives, c);
        RunMeans(passes, s, c.Life());
      }
    }
  }
}
