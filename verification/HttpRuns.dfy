/**
 Passes of the SSL demo server's connection loop one after another: what each
 meets, what the connections show behind it, and what is closed on the way.
 */
module HttpRuns {
  import opened Bytes
  import opened HttpScan
  import opened HttpPass

  const INVALID_SOCKET := -1

  datatype Incoming = Nothing | HandshakeFailed(fd: int) | Joined(fd: int)

  /** What one pass meets: the listening socket, what select returns, whether it was
      interrupted, the descriptors it reports, what accept and the handshake say,
      and what serving connection i comes across. */
  datatype Pass = Pass(lfd: int, val: int, interrupted: bool, ready: set<int>, arrival: Incoming, io: nat -> ConnIo)

  /** A connection is accepted only when the listening socket is reported. */
  function Incomer(p: Pass): Incoming {
    if p.lfd in p.ready then p.arrival else Nothing
  }

  /** Descriptor and life of the connection that joins, if one does. */
  function JoinedFd(incoming: Incoming): seq<int> {
    if incoming.Joined? then [incoming.fd] else []
  }

  function JoinedLife(incoming: Incoming): (r: seq<Life>)
    ensures |r| == |JoinedFd(incoming)|
  {
    if incoming.Joined? then [NEW_LIFE] else []
  }

  predicate AsksShutdown(outs: seq<Outcome>) {
    outs != [] && ((outs[0].Close? && outs[0].shutdown) || AsksShutdown(outs[1..]))
  }

  // ----- Calls to the world -----

  /** A response is written, a session is closed, a descriptor is closed, a closing
      and its reason are reported. */
  datatype Call = Respond(fd: int) | CloseSession(fd: int) | CloseSocket(fd: int) | Report(fd: int, reason: int)

  /** What closing a connection calls. */
  function Closing(fd: int, reason: int): seq<Call> {
    [CloseSession(fd)] + (if fd != INVALID_SOCKET then [CloseSocket(fd)] else []) + [Report(fd, reason)]
  }

  function Responses(fd: int, o: Outcome): seq<Call> {
    if o.Close? && o.responded then [Respond(fd)] else []
  }

  function Said(fd: int, o: Outcome): seq<Call> {
    Responses(fd, o) + if o.Keep? then [] else Closing(fd, o.reason)
  }

  function Closings(fds: seq<int>, outs: seq<Outcome>): seq<Call>
    requires |fds| == |outs|
  {
    if fds == [] then [] else Said(fds[0], outs[0]) + Closings(fds[1..], outs[1..])
  }

  function Refusal(incoming: Incoming): seq<Call> {
    if incoming.HandshakeFailed? then [CloseSocket(incoming.fd)] else []
  }

  /** The descriptors of the sessions closed. */
  function SessionsClosed(calls: seq<Call>): seq<int> {
    if calls == [] then []
    else (if calls[0].CloseSession? then [calls[0].fd] else []) + SessionsClosed(calls[1..])
  }

  lemma {:induction false} SessionsClosedAppend(a: seq<Call>, b: seq<Call>)
    ensures SessionsClosed(a + b) == SessionsClosed(a) + SessionsClosed(b)
  {
    if a == [] {
      assert a + b == b;
    } else {
      SessionsClosedAppend(a[1..], b);
      assert (a + b)[1..] == a[1..] + b && (a + b)[0] == a[0];
      Associate(if a[0].CloseSession? then [a[0].fd] else [], SessionsClosed(a[1..]), SessionsClosed(b));
    }
  }

  lemma {:induction false} ClosingCloses(fd: int, reason: int)
    ensures SessionsClosed(Closing(fd, reason)) == [fd]
  {
    var mid, last := if fd != INVALID_SOCKET then [CloseSocket(fd)] else [], [Report(fd, reason)];
    SessionsClosedAppend([CloseSession(fd)] + mid, last);
    SessionsClosedAppend([CloseSession(fd)], mid);
    assert SessionsClosed(last) == [] && SessionsClosed(mid) == [] && SessionsClosed([CloseSession(fd)]) == [fd];
  }

  lemma {:induction false} SaidCloses(fd: int, o: Outcome)
    ensures SessionsClosed(Said(fd, o)) == if o.Keep? then [] else [fd]
  {
    if o.Close? {
      ClosingCloses(fd, o.reason);
      SessionsClosedAppend(Responses(fd, o), Closing(fd, o.reason));
      assert SessionsClosed(Responses(fd, o)) == [];
    }
  }

  /** The sessions closed are those of the connections dropped, in order. */
  lemma {:induction false} ClosingsAre(fds: seq<int>, outs: seq<Outcome>)
    requires |fds| == |outs|
    ensures SessionsClosed(Closings(fds, outs)) == Dropped(fds, outs)
  {
    if fds != [] {
      SessionsClosedAppend(Said(fds[0], outs[0]), Closings(fds[1..], outs[1..]));
      SaidCloses(fds[0], outs[0]);
      ClosingsAre(fds[1..], outs[1..]);
    }
  }

  // ----- What a pass comes to -----

  /** The descriptors of a pass, the outcomes it comes to, the buffer it leaves and the calls it makes. */
  function PassFds(p: Pass, fds: seq<int>): seq<int> {
    fds + JoinedFd(Incomer(p))
  }

  function PassOuts(p: Pass, fds: seq<int>, lives: seq<Life>, buf: Buffer): (outs: seq<Outcome>)
    requires |fds| == |lives|
    ensures |outs| == |PassFds(p, fds)|
  {
    Decisions(Deciding(p.ready, p.io), PassFds(p, fds), lives + JoinedLife(Incomer(p)), buf, 0)
  }

  function PassBuf(p: Pass, fds: seq<int>, lives: seq<Life>, buf: Buffer): Buffer
    requires |fds| == |lives|
  {
    var f := PassFds(p, fds);
    BufferAfter(Deciding(p.ready, p.io), f, lives + JoinedLife(Incomer(p)), buf, 0, |f|)
  }

  /** What there is to see between two passes: the open connections' descriptors and
      lives, the buffer, whether a connection asked for the end, and all calls so far. */
  datatype Shown = Shown(fds: seq<int>, lives: seq<Life>, buf: Buffer, asked: bool, calls: seq<Call>)

  lemma {:induction false} KeptCount(fds: seq<int>, outs: seq<Outcome>)
    requires |fds| == |outs|
    ensures |Kept(fds, outs)| == |KeptLives(outs)|
  {
    if fds != [] {
      KeptCount(fds[1..], outs[1..]);
    }
  }

  function AfterPass(p: Pass, s: Shown): (t: Shown)
    requires |s.fds| == |s.lives|
    ensures |t.fds| == |t.lives|
  {
    if p.val <= 0 then s
    else
      var fds, outs := PassFds(p, s.fds), PassOuts(p, s.fds, s.lives, s.buf);
      KeptCount(fds, outs);
      Shown(Kept(fds, outs), KeptLives(outs), PassBuf(p, s.fds, s.lives, s.buf), s.asked || AsksShutdown(outs),
            s.calls + Refusal(Incomer(p)) + Closings(fds, outs))
  }

  /** Pass after pass, until one has asked for the end. */
  function AfterPasses(ps: seq<Pass>, s: Shown): (t: Shown)
    requires |s.fds| == |s.lives|
    ensures |t.fds| == |t.lives|
  {
    if ps == [] || s.asked then s else AfterPasses(ps[1..], AfterPass(ps[0], s))
  }

  // ----- What holds of every run -----

  /** The connections that join in the passes made. */
  function JoinedIn(ps: seq<Pass>, s: Shown): seq<int>
    requires |s.fds| == |s.lives|
  {
    if ps == [] || s.asked then []
    else
      (if ps[0].val > 0 && ps[0].lfd in ps[0].ready && ps[0].arrival.Joined? then [ps[0].arrival.fd] else [])
      + JoinedIn(ps[1..], AfterPass(ps[0], s))
  }

  lemma {:induction false} CallsConserve(said: seq<Call>, refusal: seq<Call>, fds: seq<int>, outs: seq<Outcome>)
    requires |fds| == |outs| && SessionsClosed(refusal) == []
    ensures multiset(Kept(fds, outs)) + multiset(SessionsClosed(said + refusal + Closings(fds, outs)))
         == multiset(SessionsClosed(said)) + multiset(fds)
  {
    SessionsClosedAppend(said + refusal, Closings(fds, outs));
    SessionsClosedAppend(said, refusal);
    ClosingsAre(fds, outs);
    Conservation(fds, outs);
    assert SessionsClosed(said) + [] == SessionsClosed(said);
  }

  lemma {:induction false} PassConserves(p: Pass, s: Shown, outs: seq<Outcome>)
    requires |s.fds| == |s.lives| && p.val > 0 && outs == PassOuts(p, s.fds, s.lives, s.buf)
    ensures var t := AfterPass(p, s);
      multiset(t.fds) + multiset(SessionsClosed(t.calls))
      == multiset(s.fds) + multiset(SessionsClosed(s.calls)) + multiset(JoinedFd(Incomer(p)))
  {
    assert multiset(PassFds(p, s.fds)) == multiset(s.fds) + multiset(JoinedFd(Incomer(p)));
    CallsConserve(s.calls, Refusal(Incomer(p)), PassFds(p, s.fds), outs);
  }

  /** Over any run every connection that was open or joined is open still, or its
      session was closed exactly once. */
  lemma {:induction false} RunConserves(ps: seq<Pass>, s: Shown)
    requires |s.fds| == |s.lives|
    ensures var t := AfterPasses(ps, s);
      multiset(t.fds) + multiset(SessionsClosed(t.calls))
      == multiset(s.fds) + multiset(SessionsClosed(s.calls)) + multiset(JoinedIn(ps, s))
  {
    if ps != [] && !s.asked {
      if ps[0].val > 0 {
        PassConserves(ps[0], s, PassOuts(ps[0], s.fds, s.lives, s.buf));
      }
      RunConserves(ps[1..], AfterPass(ps[0], s));
    }
  }

  predicate AllCoherent(lives: seq<Life>) {
    forall o | o in lives :: Coherent(o)
  }

  lemma {:induction false} AnnouncedCoherent(o: Life, buf: Buffer, more: seq<Part>)
    requires Coherent(o)
    ensures var p := Announced(o, buf, more); !p.verdict.Error? ==> Coherent(p.life)
    decreases |more|
  {
    if more != [] {
      var b := ReadInto(buf, more[0]);
      TakeCoherent(o, b[..Reached(o.line, b, RECV_BUF_LEN)]);
      var p := Parse(o, b, RECV_BUF_LEN);
      if !p.verdict.Error? {
        AnnouncedCoherent(p.life, p.buf, more[1..]);
      }
    }
  }

  lemma {:induction false} ServeCoherent(o: Life, buf: Buffer, io: ConnIo)
    requires Coherent(o)
    ensures var s := Serve(o, buf, io).outcome; s.Keep? ==> Coherent(s.life)
  {
    AnnouncedCoherent(o, buf, io.burst.more);
    var p := Announced(o, buf, io.burst.more);
    if !p.verdict.Error? && !io.burst.last.Failed? {
      FinalIsTake(p.life, p.buf, io.burst.last);
      TakeCoherent(p.life, LastChunk(p.life.line, p.buf, io.burst.last));
    }
  }

  lemma {:induction false} DecisionsCoherent(ready: set<int>, io: nat -> ConnIo, fds: seq<int>, lives: seq<Life>,
                                             buf: Buffer, k: nat)
    requires |fds| == |lives| && AllCoherent(lives)
    ensures AllCoherent(KeptLives(Decisions(Deciding(ready, io), fds, lives, buf, k)))
  {
    if fds != [] {
      ServeCoherent(lives[0], buf, io(k));
      DecisionsCoherent(ready, io, fds[1..], lives[1..], Decide(fds[0], lives[0], buf, ready, io(k)).buf, k + 1);
    }
  }

  /** Over any run every open connection holds the pending line of all bytes fed to it
      since it was opened or last completed a request, which decide nothing yet. */
  lemma {:induction false} RunMeans(ps: seq<Pass>, s: Shown, o: Life)
    requires |s.fds| == |s.lives| && AllCoherent(s.lives) && o in AfterPasses(ps, s).lives
    ensures Scan(Concat(o.fed)).Partial? && o.line == Pending(Concat(o.fed)) && !AnyOversize(o.fed)
  {
    if ps == [] || s.asked {
      LifeMeans(o);
    } else {
      if ps[0].val > 0 {
        var p := ps[0];
        DecisionsCoherent(p.ready, p.io, PassFds(p, s.fds), s.lives + JoinedLife(Incomer(p)), s.buf, 0);
      }
      RunMeans(ps[1..], AfterPass(ps[0], s), o);
    }
  }
}
