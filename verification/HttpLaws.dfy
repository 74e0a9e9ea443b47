/**
 What the SSL demo server does to its connections, told without the functions that
 decide it: which outcome a pass gives when, what is closed over a run, and that
 nothing that was closed is ever open again.
 */
module HttpLaws {
  import opened Bytes
  import opened HttpScan
  import opened HttpPass
  import opened HttpRuns

  // ----- One connection in one pass -----

  /** Whether a saved line asks for the end of the server: it starts with the fifteen letters. */
  predicate AsksEnd(line: seq<byte>) {
    |line| >= 15 && forall i | 0 <= i < 15 :: line[i] == "MATRIX_SHUTDOWN"[i] as int
  }

  lemma {:induction false} AsksEndIs(line: seq<byte>)
    ensures SHUTDOWN <= line <==> AsksEnd(line)
  {
    assert |SHUTDOWN| == 15 && forall i | 0 <= i < 15 :: SHUTDOWN[i] == "MATRIX_SHUTDOWN"[i] as int;
    if SHUTDOWN <= line {
      assert forall i | 0 <= i < 15 :: line[i] == SHUTDOWN[i];
    }
    if AsksEnd(line) {
      assert line[..15] == SHUTDOWN;
    }
  }

  /** The line that is open behind the last read. */
  function LastLine(o: Life, buf: Buffer, burst: Burst): seq<byte>
    requires !burst.last.Failed?
  {
    var p := Announced(o, buf, burst.more);
    Final(p.life, p.buf, burst.last).life.line
  }

  /**
   A readable connection stays open exactly when its last read did not fail, the
   parser's last answer is that the request goes on, and the open line does not
   ask for the end.
   */
  lemma {:induction false} StaysWhen(o: Life, buf: Buffer, io: ConnIo)
    ensures Serve(o, buf, io).outcome.Keep?
       <==> && !io.burst.last.Failed?
            && LastVerdict(o, buf, io.burst).Partial?
            && !AsksEnd(LastLine(o, buf, io.burst))
  {
    if !io.burst.last.Failed? {
      AsksEndIs(LastLine(o, buf, io.burst));
    }
  }

  /** A failed read closes the connection for a bad argument, unless an announcing read was an error before. */
  lemma {:induction false} FailedReadCloses(o: Life, buf: Buffer, io: ConnIo)
    requires io.burst.last.Failed?
    ensures var s := Serve(o, buf, io).outcome;
      && s.Close? && !s.shutdown && !s.responded
      && s.reason == if Announced(o, buf, io.burst.more).verdict.Error? then -12 else -6
  {
  }

  /** Otherwise the parser's last answer tells why it is closed; only a complete
      request is responded to, and only the line that asks for it ends the server. */
  lemma {:induction false} ClosedWhy(o: Life, buf: Buffer, io: ConnIo)
    requires !io.burst.last.Failed?
    ensures var s := Serve(o, buf, io).outcome; var v := LastVerdict(o, buf, io.burst);
      && (v.Error? ==> s == Close(-12, false, false))
      && (v.Complete? ==> s == Close(if io.writeOk then 0 else -12, false, true))
      && (v.Partial? && AsksEnd(LastLine(o, buf, io.burst)) ==> s == Close(-6, true, false))
  {
    AsksEndIs(LastLine(o, buf, io.burst));
  }

  /**
   One read of a connection, by all bytes fed to it since it was opened or last
   completed a request: the response is sent when the scan of these says the request
   is complete, the connection stays open when it says nothing yet.
   */
  lemma {:induction false} OneRead(o: Life, buf: Buffer, data: Chunk, writeOk: bool)
    requires Coherent(o) && !LooksBehind(o.line, data)
    ensures var s := Serve(o, buf, ConnIo(Burst([], Data(data)), writeOk)).outcome;
      var all, tooLong := Concat(o.fed) + data, o.line != [] && Fragment(data) > 256;
      && (s.Close? && s.responded <==> !tooLong && Scan(all).Complete?)
      && (s.Keep? <==> !tooLong && Scan(all).Partial? && !AsksEnd(Pending(all)))
      && (s.Keep? ==> s.life == Life(Pending(all), o.fed + [data]))
  {
    var io := ConnIo(Burst([], Data(data)), writeOk);
    var chunk := LastChunk(o.line, buf, Data(data));
    FinalIsTake(o, buf, Data(data));
    StaysWhen(o, buf, io);
    ClosedWhy(o, buf, io);
    if o.line == [] || LF in data {
      DataAlone(o.line, buf, data);
      TakeMeans(o, data);
      LifeMeans(o);
      ScanSplit(Concat(o.fed), data);
    } else {
      assert ReadInto(buf, data)[..|data|] == data;
      ExtraTooLong(o.line, ReadInto(buf, data), |data|);
      IndexOfAbsent(data);
    }
  }

  /** A connection select does not report stays as it is, and so does the buffer. */
  lemma {:induction false} NotReadable(fd: int, o: Life, buf: Buffer, ready: set<int>, io: ConnIo)
    requires fd !in ready
    ensures Decide(fd, o, buf, ready, io).outcome.Keep? && Decide(fd, o, buf, ready, io).outcome.life == o
    ensures Decide(fd, o, buf, ready, io).buf == buf
  {
  }

  /** A read that announces more data has the whole buffer parsed, whatever is behind its bytes. */
  lemma {:induction false} AnnouncedParsesAll(o: Life, buf: Buffer, data: Part)
    ensures var p, t := Announced(o, buf, [data]), Take(o, data + buf[|data|..1024]);
      && (p.verdict.Error? <==> t.verdict.Error?)
      && (!p.verdict.Error? ==> p.life == t.life)
  {
    var b := ReadInto(buf, data);
    assert b == data + buf[|data|..1024] && b[..1024] == b;
    assert [data][1..] == [];
  }

  // ----- What a pass calls -----

  /** What is picked out of the calls, in order. */
  function Each<T>(calls: seq<Call>, pick: Call -> seq<T>): seq<T> {
    if calls == [] then [] else pick(calls[0]) + Each(calls[1..], pick)
  }

  lemma {:induction false} EachAppend<T>(a: seq<Call>, b: seq<Call>, pick: Call -> seq<T>)
    ensures Each(a + b, pick) == Each(a, pick) + Each(b, pick)
  {
    if a == [] {
      assert a + b == b;
    } else {
      EachAppend(a[1..], b, pick);
      assert (a + b)[1..] == a[1..] + b && (a + b)[0] == a[0];
      Associate(pick(a[0]), Each(a[1..], pick), Each(b, pick));
    }
  }

  lemma {:induction false} EachOne<T>(c: Call, pick: Call -> seq<T>)
    ensures Each([c], pick) == pick(c)
  {
    assert [c][1..] == [] && pick(c) + [] == pick(c);
  }

  function SocketOf(c: Call): seq<int> {
    if c.CloseSocket? then [c.fd] else []
  }

  function ReportOf(c: Call): seq<(int, int)> {
    if c.Report? then [(c.fd, c.reason)] else []
  }

  function ResponseOf(c: Call): seq<int> {
    if c.Respond? then [c.fd] else []
  }

  /** The descriptors closed, the closings reported with their reasons, and the descriptors responded on. */
  function SocketsClosed(calls: seq<Call>): seq<int> {
    Each(calls, SocketOf)
  }

  function Reported(calls: seq<Call>): seq<(int, int)> {
    Each(calls, ReportOf)
  }

  function Responded(calls: seq<Call>): seq<int> {
    Each(calls, ResponseOf)
  }

  /** The descriptors that are any: -1 stands for none. */
  function Valid(fds: seq<int>): seq<int> {
    if fds == [] then [] else (if fds[0] != -1 then [fds[0]] else []) + Valid(fds[1..])
  }

  lemma {:induction false} ValidAppend(a: seq<int>, b: seq<int>)
    ensures Valid(a + b) == Valid(a) + Valid(b)
  {
    if a == [] {
      assert a + b == b;
    } else {
      ValidAppend(a[1..], b);
      assert (a + b)[1..] == a[1..] + b && (a + b)[0] == a[0];
      Associate(if a[0] != -1 then [a[0]] else [], Valid(a[1..]), Valid(b));
    }
  }

  /** What each connection's outcome amounts to, told outcome by outcome. */
  function Answered(fds: seq<int>, outs: seq<Outcome>): seq<int>
    requires |fds| == |outs|
  {
    if fds == [] then []
    else (if outs[0].Close? && outs[0].responded then [fds[0]] else []) + Answered(fds[1..], outs[1..])
  }

  function Reasons(fds: seq<int>, outs: seq<Outcome>): seq<(int, int)>
    requires |fds| == |outs|
  {
    if fds == [] then []
    else (if outs[0].Close? then [(fds[0], outs[0].reason)] else []) + Reasons(fds[1..], outs[1..])
  }

  /** Closing one connection: first its session, then its descriptor if it has one, then the report. */
  lemma {:induction false} ClosingIs(fd: int, reason: int)
    ensures fd != -1 ==> Closing(fd, reason) == [CloseSession(fd), CloseSocket(fd), Report(fd, reason)]
    ensures fd == -1 ==> Closing(fd, reason) == [CloseSession(fd), Report(fd, reason)]
  {
  }

  lemma {:induction false} ClosingPicks<T>(fd: int, reason: int, pick: Call -> seq<T>)
    ensures Each(Closing(fd, reason), pick)
         == pick(CloseSession(fd)) + (if fd != -1 then pick(CloseSocket(fd)) else []) + pick(Report(fd, reason))
  {
    ClosingIs(fd, reason);
    var first, mid, last := [CloseSession(fd)], if fd != -1 then [CloseSocket(fd)] else [], [Report(fd, reason)];
    assert Closing(fd, reason) == first + mid + last;
    EachAppend(first + mid, last, pick);
    EachAppend(first, mid, pick);
    EachOne(CloseSession(fd), pick);
    EachOne(CloseSocket(fd), pick);
    EachOne(Report(fd, reason), pick);
  }

  lemma {:induction false} SaidSays(fd: int, o: Outcome)
    ensures SocketsClosed(Said(fd, o)) == if o.Keep? then [] else Valid([fd])
    ensures Reported(Said(fd, o)) == if o.Keep? then [] else [(fd, o.reason)]
    ensures Responded(Said(fd, o)) == if o.Close? && o.responded then [fd] else []
  {
    SaidPicks(fd, o, SocketOf);
    SaidPicks(fd, o, ReportOf);
    SaidPicks(fd, o, ResponseOf);
  }

  lemma {:induction false} SaidPicks<T>(fd: int, o: Outcome, pick: Call -> seq<T>)
    ensures Each(Said(fd, o), pick)
         == if o.Keep? then []
            else (if o.responded then pick(Respond(fd)) else [])
                 + (pick(CloseSession(fd)) + (if fd != -1 then pick(CloseSocket(fd)) else [])
                    + pick(Report(fd, o.reason)))
  {
    if o.Close? {
      EachAppend(Responses(fd, o), Closing(fd, o.reason), pick);
      EachOne(Respond(fd), pick);
      ClosingPicks(fd, o.reason, pick);
    }
  }

  /** How many of the first i connections are kept. */
  function Place(outs: seq<Outcome>, i: nat): nat
    requires i <= |outs|
  {
    if i == 0 then 0 else Place(outs, i - 1) + if outs[i - 1].Keep? then 1 else 0
  }

  lemma {:induction false} PlaceBehind(outs: seq<Outcome>, i: nat)
    requires 0 < i <= |outs|
    ensures Place(outs, i) == Place(outs[1..], i - 1) + if outs[0].Keep? then 1 else 0
  {
    if i > 1 {
      PlaceBehind(outs, i - 1);
    }
  }

  /** The connections kept stay in their order, each with its own life. */
  lemma {:induction false} KeptAt<T>(all: seq<T>, outs: seq<Outcome>, i: nat)
    requires i < |all| == |outs| && outs[i].Keep?
    ensures |Kept(all, outs)| == |KeptLives(outs)| == Place(outs, |outs|)
    ensures Place(outs, i) < |KeptLives(outs)|
    ensures Kept(all, outs)[Place(outs, i)] == all[i] && KeptLives(outs)[Place(outs, i)] == outs[i].life
    decreases |all|
  {
    KeptPlaces(all, outs);
    if i > 0 {
      PlaceBehind(outs, i);
      KeptAt(all[1..], outs[1..], i - 1);
      assert Kept(all, outs) == (if outs[0].Keep? then [all[0]] else []) + Kept(all[1..], outs[1..]);
    }
  }

  lemma {:induction false} KeptPlaces<T>(all: seq<T>, outs: seq<Outcome>)
    requires |all| == |outs|
    ensures |Kept(all, outs)| == |KeptLives(outs)| == Place(outs, |outs|)
  {
    if all != [] {
      PlaceBehind(outs, |outs|);
      KeptPlaces(all[1..], outs[1..]);
      assert |outs[1..]| == |outs| - 1;
      assert |Kept(all, outs)| == (if outs[0].Keep? then 1 else 0) + |Kept(all[1..], outs[1..])|;
    }
  }

  /** The descriptors closed in a pass are those of the connections dropped, each once and
      in order; each is reported with its reason; the responses are those of the outcomes. */
  lemma {:induction false} ClosingsSay(fds: seq<int>, outs: seq<Outcome>)
    requires |fds| == |outs|
    ensures SocketsClosed(Closings(fds, outs)) == Valid(Dropped(fds, outs))
    ensures Reported(Closings(fds, outs)) == Reasons(fds, outs)
    ensures Responded(Closings(fds, outs)) == Answered(fds, outs)
  {
    if fds != [] {
      var first, rest := Said(fds[0], outs[0]), Closings(fds[1..], outs[1..]);
      SaidSays(fds[0], outs[0]);
      ClosingsSay(fds[1..], outs[1..]);
      EachAppend(first, rest, SocketOf);
      EachAppend(first, rest, ReportOf);
      EachAppend(first, rest, ResponseOf);
      ValidAppend(if outs[0].Keep? then [] else [fds[0]], Dropped(fds[1..], outs[1..]));
    }
  }

  lemma {:induction false} ShutdownAmong(outs: seq<Outcome>)
    ensures AsksShutdown(outs) <==> exists i: nat :: i < |outs| && outs[i].Close? && outs[i].shutdown
  {
    if outs != [] {
      ShutdownAmong(outs[1..]);
      assert forall i: nat | i < |outs[1..]| :: outs[1..][i] == outs[i + 1];
      if i: nat :| 0 < i < |outs| && outs[i].Close? && outs[i].shutdown {
        assert outs[1..][i - 1] == outs[i];
      }
    }
  }

  /** A connection is reported, and its open line asks for the end behind its last read. */
  predicate Asks(fd: int, o: Life, buf: Buffer, ready: set<int>, io: ConnIo) {
    && fd in ready && !io.burst.last.Failed?
    && LastVerdict(o, buf, io.burst).Partial? && AsksEnd(LastLine(o, buf, io.burst))
  }

  /** Connection i of a pass does, with the buffer as those before it leave it. */
  predicate AskedAt(p: Pass, s: Shown, i: nat)
    requires |s.fds| == |s.lives|
  {
    var fds, lives := PassFds(p, s.fds), s.lives + JoinedLife(Incomer(p));
    && i < |fds|
    && var b := BufferAfter(Deciding(p.ready, p.io), fds, lives, s.buf, 0, i);
       Asks(fds[i], lives[i], b, p.ready, p.io(i))
  }

  lemma {:induction false} DecideAsks(fd: int, o: Life, buf: Buffer, ready: set<int>, io: ConnIo)
    ensures var s := Decide(fd, o, buf, ready, io).outcome; s.Close? && s.shutdown <==> Asks(fd, o, buf, ready, io)
  {
    if fd in ready {
      if io.burst.last.Failed? {
        FailedReadCloses(o, buf, io);
      } else {
        StaysWhen(o, buf, io);
        ClosedWhy(o, buf, io);
      }
    }
  }

  /** The buffer connection i finds, and its outcome. */
  lemma {:induction false} DecidedAt(judge: Decider, fds: seq<int>, lives: seq<Life>, buf: Buffer, i: nat)
    returns (b: Buffer)
    requires i < |fds| == |lives|
    ensures b == BufferAfter(judge, fds, lives, buf, 0, i)
    ensures Decisions(judge, fds, lives, buf, 0)[i] == judge(fds[i], lives[i], b, i).outcome
  {
    DecisionsAt(judge, fds, lives, buf, 0, i);
    b := BufferAfter(judge, fds, lives, buf, 0, i);
  }

  lemma {:induction false} AskedWhen(p: Pass, s: Shown, i: nat)
    requires |s.fds| == |s.lives| && i < |PassFds(p, s.fds)|
    ensures var o := PassOuts(p, s.fds, s.lives, s.buf)[i]; o.Close? && o.shutdown <==> AskedAt(p, s, i)
  {
    var fds, lives := PassFds(p, s.fds), s.lives + JoinedLife(Incomer(p));
    var b := DecidedAt(Deciding(p.ready, p.io), fds, lives, s.buf, i);
    DecideAsks(fds[i], lives[i], b, p.ready, p.io(i));
  }

  /** The server is told to end exactly when a connection asks for it: not by its descriptor,
      its errors or its requests. */
  lemma {:induction false} EndsWhen(p: Pass, s: Shown)
    requires |s.fds| == |s.lives|
    ensures AfterPass(p, s).asked <==> s.asked || (p.val > 0 && exists i: nat :: AskedAt(p, s, i))
  {
    ShutdownAmong(PassOuts(p, s.fds, s.lives, s.buf));
    forall i: nat | i < |PassFds(p, s.fds)|
      ensures var o := PassOuts(p, s.fds, s.lives, s.buf)[i]; o.Close? && o.shutdown <==> AskedAt(p, s, i)
    {
      AskedWhen(p, s, i);
    }
  }

  // ----- Descriptors over a run -----

  /** The descriptors of the connections dropped in the passes made, and of the handshakes that failed. */
  function DroppedIn(ps: seq<Pass>, s: Shown): seq<int>
    requires |s.fds| == |s.lives|
  {
    if ps == [] || s.asked then []
    else
      (if ps[0].val > 0 then Dropped(PassFds(ps[0], s.fds), PassOuts(ps[0], s.fds, s.lives, s.buf)) else [])
      + DroppedIn(ps[1..], AfterPass(ps[0], s))
  }

  function RefusedIn(ps: seq<Pass>, s: Shown): seq<int>
    requires |s.fds| == |s.lives|
  {
    if ps == [] || s.asked then []
    else
      (if ps[0].val > 0 && ps[0].lfd in ps[0].ready && ps[0].arrival.HandshakeFailed? then [ps[0].arrival.fd] else [])
      + RefusedIn(ps[1..], AfterPass(ps[0], s))
  }

  /** A refused handshake has no session yet; its descriptor alone is closed. */
  lemma {:induction false} RefusalSays(incoming: Incoming)
    ensures SocketsClosed(Refusal(incoming)) == if incoming.HandshakeFailed? then [incoming.fd] else []
    ensures SessionsClosed(Refusal(incoming)) == []
  {
    if incoming.HandshakeFailed? {
      EachOne(CloseSocket(incoming.fd), SocketOf);
    }
  }

  lemma {:induction false} SocketsSay(said: seq<Call>, refusal: seq<Call>, fds: seq<int>, outs: seq<Outcome>)
    requires |fds| == |outs|
    ensures SocketsClosed(said + refusal + Closings(fds, outs))
         == SocketsClosed(said) + SocketsClosed(refusal) + Valid(Dropped(fds, outs))
  {
    EachAppend(said + refusal, Closings(fds, outs), SocketOf);
    EachAppend(said, refusal, SocketOf);
    ClosingsSay(fds, outs);
  }

  lemma {:induction false} SessionsSay(said: seq<Call>, refusal: seq<Call>, fds: seq<int>, outs: seq<Outcome>)
    requires |fds| == |outs|
    ensures SessionsClosed(said + refusal + Closings(fds, outs))
         == SessionsClosed(said) + SessionsClosed(refusal) + Dropped(fds, outs)
  {
    SessionsClosedAppend(said + refusal, Closings(fds, outs));
    SessionsClosedAppend(said, refusal);
    ClosingsAre(fds, outs);
  }

  lemma {:induction false} CallsSay(said: seq<Call>, incoming: Incoming, fds: seq<int>, outs: seq<Outcome>)
    requires |fds| == |outs|
    ensures var calls := said + Refusal(incoming) + Closings(fds, outs);
      && multiset(SocketsClosed(calls)) == multiset(SocketsClosed(said)) + multiset(Valid(Dropped(fds, outs)))
           + multiset(if incoming.HandshakeFailed? then [incoming.fd] else [])
      && SessionsClosed(calls) == SessionsClosed(said) + Dropped(fds, outs)
  {
    RefusalSays(incoming);
    SocketsSay(said, Refusal(incoming), fds, outs);
    SessionsSay(said, Refusal(incoming), fds, outs);
    assert SessionsClosed(said) + [] == SessionsClosed(said);
  }

  lemma {:induction false} PassSays(p: Pass, s: Shown, dropped: seq<int>)
    requires |s.fds| == |s.lives| && p.val > 0
    requires dropped == Dropped(PassFds(p, s.fds), PassOuts(p, s.fds, s.lives, s.buf))
    ensures var t := AfterPass(p, s);
      && multiset(SocketsClosed(t.calls)) == multiset(SocketsClosed(s.calls)) + multiset(Valid(dropped))
           + multiset(if Incomer(p).HandshakeFailed? then [Incomer(p).fd] else [])
      && SessionsClosed(t.calls) == SessionsClosed(s.calls) + dropped
  {
    CallsSay(s.calls, Incomer(p), PassFds(p, s.fds), PassOuts(p, s.fds, s.lives, s.buf));
  }

  /**
   Over any run the sessions closed are those of the connections dropped, and the
   descriptors closed are those of the connections dropped that have one and of the
   refused handshakes, each once.
   */
  lemma {:induction false} RunClosesSockets(ps: seq<Pass>, s: Shown)
    requires |s.fds| == |s.lives|
    ensures var t := AfterPasses(ps, s);
      && SessionsClosed(t.calls) == SessionsClosed(s.calls) + DroppedIn(ps, s)
      && multiset(SocketsClosed(t.calls))
         == multiset(SocketsClosed(s.calls)) + multiset(Valid(DroppedIn(ps, s))) + multiset(RefusedIn(ps, s))
  {
    if ps == [] || s.asked {
      assert SessionsClosed(s.calls) + [] == SessionsClosed(s.calls);
    } else {
      var t := AfterPass(ps[0], s);
      var dropped, more := if ps[0].val > 0 then Dropped(PassFds(ps[0], s.fds), PassOuts(ps[0], s.fds, s.lives, s.buf))
                           else [], DroppedIn(ps[1..], t);
      if ps[0].val > 0 {
        PassSays(ps[0], s, dropped);
      } else {
        assert SessionsClosed(s.calls) + [] == SessionsClosed(s.calls);
      }
      RunClosesSockets(ps[1..], t);
      ValidAppend(dropped, more);
      Associate(SessionsClosed(s.calls), dropped, more);
    }
  }

  // ----- Which connections are open behind a run -----

  /** The connections by number: those open, in order, and the number of the next to join. */
  datatype Roll = Roll(open: seq<nat>, next: nat)

  /** The connections a pass meets, the one that joins last. */
  function Met(p: Pass, r: Roll): seq<nat> {
    r.open + if Incomer(p).Joined? then [r.next] else []
  }

  function RollAfter(p: Pass, s: Shown, r: Roll): (t: Roll)
    requires |r.open| == |s.fds| == |s.lives|
    ensures |t.open| == |AfterPass(p, s).fds|
  {
    if p.val <= 0 then r
    else
      var all, outs := Met(p, r), PassOuts(p, s.fds, s.lives, s.buf);
      KeptLength(all, PassFds(p, s.fds), outs);
      Roll(Kept(all, outs), if Incomer(p).Joined? then r.next + 1 else r.next)
  }

  lemma {:induction false} KeptLength<S, T>(a: seq<S>, b: seq<T>, outs: seq<Outcome>)
    requires |a| == |b| == |outs|
    ensures |Kept(a, outs)| == |Kept(b, outs)|
  {
    if a != [] {
      KeptLength(a[1..], b[1..], outs[1..]);
    }
  }

  function RollAfterAll(ps: seq<Pass>, s: Shown, r: Roll): (t: Roll)
    requires |r.open| == |s.fds| == |s.lives|
  {
    if ps == [] || s.asked then r else RollAfterAll(ps[1..], AfterPass(ps[0], s), RollAfter(ps[0], s, r))
  }

  /** Every number is given once, and before the next. */
  predicate InOrder(r: Roll) {
    (forall x | x in r.open :: x < r.next) && forall i, j | 0 <= i < j < |r.open| :: r.open[i] != r.open[j]
  }

  lemma {:induction false} KeptIn<T>(all: seq<T>, outs: seq<Outcome>, x: T)
    requires |all| == |outs| && x in Kept(all, outs)
    ensures x in all
  {
    if x !in all {
      KeptWithin(all, outs, x);
    }
  }

  lemma {:induction false} KeptInOrder<T>(all: seq<T>, outs: seq<Outcome>)
    requires |all| == |outs| && forall i, j | 0 <= i < j < |all| :: all[i] != all[j]
    ensures forall i, j | 0 <= i < j < |Kept(all, outs)| :: Kept(all, outs)[i] != Kept(all, outs)[j]
  {
    if all != [] {
      var rest := Kept(all[1..], outs[1..]);
      KeptInOrder(all[1..], outs[1..]);
      if all[0] in rest {
        KeptIn(all[1..], outs[1..], all[0]);
      }
      var k := Kept(all, outs);
      if outs[0].Keep? {
        assert k == [all[0]] + rest;
        assert forall j | 1 <= j < |k| :: k[j] == rest[j - 1] && k[j] in rest;
      }
    }
  }

  lemma {:induction false} MetInOrder(p: Pass, r: Roll)
    requires InOrder(r)
    ensures forall i, j | 0 <= i < j < |Met(p, r)| :: Met(p, r)[i] != Met(p, r)[j]
    ensures forall x | x in Met(p, r) :: x < r.next + if Incomer(p).Joined? then 1 else 0
  {
    assert forall i | 0 <= i < |r.open| :: r.open[i] in r.open;
  }

  lemma {:induction false} RollInOrder(p: Pass, s: Shown, r: Roll)
    requires |r.open| == |s.fds| == |s.lives| && InOrder(r)
    ensures InOrder(RollAfter(p, s, r)) && r.next <= RollAfter(p, s, r).next
    ensures forall x | x in RollAfter(p, s, r).open && x < r.next :: x in r.open
  {
    if p.val > 0 {
      var all, outs := Met(p, r), PassOuts(p, s.fds, s.lives, s.buf);
      MetInOrder(p, r);
      KeptInOrder(all, outs);
      forall x | x in Kept(all, outs) ensures x in all {
        KeptIn(all, outs, x);
      }
    }
  }

  /** Connection x has left for good once it is not open. */
  lemma {:induction false} StaysClosed(ps: seq<Pass>, s: Shown, r: Roll, x: nat)
    requires |r.open| == |s.fds| == |s.lives| && InOrder(r) && x < r.next && x !in r.open
    ensures x !in RollAfterAll(ps, s, r).open
  {
    if ps != [] && !s.asked {
      RollInOrder(ps[0], s, r);
      StaysClosed(ps[1..], AfterPass(ps[0], s), RollAfter(ps[0], s, r), x);
    }
  }

  /** In some pass of the run recv fails on connection x. */
  ghost predicate RecvFails(ps: seq<Pass>, s: Shown, r: Roll, x: nat)
    requires |r.open| == |s.fds| == |s.lives|
  {
    && ps != [] && !s.asked
    && (RecvFailsNow(ps[0], s, r, x) || RecvFails(ps[1..], AfterPass(ps[0], s), RollAfter(ps[0], s, r), x))
  }

  ghost predicate RecvFailsNow(p: Pass, s: Shown, r: Roll, x: nat)
    requires |r.open| == |s.fds| == |s.lives|
  {
    p.val > 0 && exists i: nat :: i < |Met(p, r)| && Met(p, r)[i] == x && FailsAt(p, s, i)
  }

  predicate FailsAt(p: Pass, s: Shown, i: nat) {
    i < |PassFds(p, s.fds)| && PassFds(p, s.fds)[i] in p.ready && p.io(i).burst.last.Failed?
  }

  lemma {:induction false} DecideFailed(fd: int, o: Life, buf: Buffer, ready: set<int>, io: ConnIo)
    requires fd in ready && io.burst.last.Failed?
    ensures Decide(fd, o, buf, ready, io).outcome.Close?
  {
    FailedReadCloses(o, buf, io);
  }

  lemma {:induction false} FailedCloses(p: Pass, s: Shown, i: nat)
    requires |s.fds| == |s.lives| && FailsAt(p, s, i)
    ensures PassOuts(p, s.fds, s.lives, s.buf)[i].Close?
  {
    var fds, lives := PassFds(p, s.fds), s.lives + JoinedLife(Incomer(p));
    var b := DecidedAt(Deciding(p.ready, p.io), fds, lives, s.buf, i);
    DecideFailed(fds[i], lives[i], b, p.ready, p.io(i));
  }

  lemma {:induction false} NotKept<T>(all: seq<T>, outs: seq<Outcome>, i: nat)
    requires |all| == |outs| && i < |all| && outs[i].Close?
    requires forall j, k | 0 <= j < k < |all| :: all[j] != all[k]
    ensures all[i] !in Kept(all, outs)
  {
    KeptExactly(all, outs, i);
  }

  lemma {:induction false} FailedLeaves(p: Pass, s: Shown, r: Roll, i: nat)
    requires |r.open| == |s.fds| == |s.lives| && InOrder(r) && p.val > 0
    requires i < |Met(p, r)| && FailsAt(p, s, i)
    ensures Met(p, r)[i] !in RollAfter(p, s, r).open
  {
    FailedCloses(p, s, i);
    MetInOrder(p, r);
    NotKept(Met(p, r), PassOuts(p, s.fds, s.lives, s.buf), i);
  }

  /** After a run no connection whose recv failed on the way is still open. */
  lemma {:induction false} FailedAreClosed(ps: seq<Pass>, s: Shown, r: Roll, x: nat)
    requires |r.open| == |s.fds| == |s.lives| && InOrder(r) && RecvFails(ps, s, r, x)
    ensures x !in RollAfterAll(ps, s, r).open
  {
    var t, u := AfterPass(ps[0], s), RollAfter(ps[0], s, r);
    RollInOrder(ps[0], s, r);
    if RecvFailsNow(ps[0], s, r, x) {
      var i: nat :| i < |Met(ps[0], r)| && Met(ps[0], r)[i] == x && FailsAt(ps[0], s, i);
      FailedLeaves(ps[0], s, r, i);
      MetInOrder(ps[0], r);
      assert x in Met(ps[0], r);
      StaysClosed(ps[1..], t, u, x);
    } else {
      FailedAreClosed(ps[1..], t, u, x);
    }
  }
}
