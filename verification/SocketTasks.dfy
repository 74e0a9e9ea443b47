/**
 The code of the socket server demo's two tasks over their shared record, with
 the accept task preempting the receive task. Each statement on shared state is
 one step of the machine in SocketServer; arrivals says which connections come
 in, and are dealt with, before each statement of the receive task.
 */
module SocketTasks {
  import opened SocketServer

  // ----- What a task's statement keeps -----

  /** Descriptor fd is closed in t, or stands for a connection accepted since s. */
  predicate Shut(s: State, t: State, fd: int) {
    fd in t.kernel ==> t.kernel[fd] >= s.nextConn
  }

  /** Slot j is empty in t, or holds a connection accepted since s. */
  predicate Vacated(s: State, t: State, j: nat) {
    j < |t.slots| && (t.slots[j] != EMPTY ==> t.slots[j] in t.kernel && t.kernel[t.slots[j]] >= s.nextConn)
  }

  /** A slot taken in s holds the same connection in t; an empty one is at most filled with a new one. */
  predicate KeptSlot(s: State, t: State, j: nat) {
    && j < |s.slots| && j < |t.slots|
    && if s.slots[j] == EMPTY then Vacated(s, t, j)
       else && t.slots[j] == s.slots[j]
            && (s.slots[j] in s.kernel ==> s.slots[j] in t.kernel && t.kernel[s.slots[j]] == s.kernel[s.slots[j]])
  }

  /** All slots but i are kept, and no connection that was gone is there again. */
  ghost predicate Kept(s: State, t: State, i: int) {
    && |s.slots| == |t.slots| == BACKLOG && s.nextConn <= t.nextConn
    && (forall j: nat | j < BACKLOG && j != i :: KeptSlot(s, t, j))
    && forall fd | fd in t.kernel && t.kernel[fd] < s.nextConn :: fd in s.kernel && s.kernel[fd] == t.kernel[fd]
  }

  /** Of the taken slots but i, those reported in s are so in t. */
  predicate KeptReady(s: State, t: State, i: int) {
    && t.ready <= s.ready
    && forall j | 0 <= j < |s.slots| && j != i && s.slots[j] != EMPTY && s.slots[j] in s.ready :: s.slots[j] in t.ready
  }

  lemma {:induction false} KeptTwice(s: State, m: State, t: State, i: int)
    requires Kept(s, m, i) && Kept(m, t, i)
    ensures Kept(s, t, i)
  {
    forall j: nat | j < BACKLOG && j != i ensures KeptSlot(s, t, j) {
      assert KeptSlot(s, m, j) && KeptSlot(m, t, j);
    }
  }

  lemma {:induction false} KeptBut(s: State, t: State, i: int)
    requires Kept(s, t, -1)
    ensures Kept(s, t, i)
  {
  }

  lemma {:induction false} KeptSame(s: State, t: State)
    requires |s.slots| == BACKLOG && t.slots == s.slots && t.kernel == s.kernel && t.nextConn == s.nextConn
    ensures Kept(s, t, -1)
  {
  }

  lemma {:induction false} ShutStays(s: State, m: State, t: State, i: int, fd: int)
    requires s.nextConn <= m.nextConn && Shut(s, m, fd) && Kept(m, t, i)
    ensures Shut(s, t, fd)
  {
  }

  /** The accept task carries a descriptor that is open since o. */
  predicate CarriesNew(o: State, s: State) {
    Carries(s.acceptor) ==>
      s.acceptor.fd in s.kernel && s.kernel[s.acceptor.fd] >= o.nextConn && s.acceptor.fd !in o.kernel
  }

  lemma {:induction false} AcceptorKeeps(o: State, s: State)
    requires Inv(o) && Inv(s) && o.receiver == s.receiver && Kept(o, s, -1) && CarriesNew(o, s)
    ensures Kept(o, AcceptorNext(s), -1) && CarriesNew(o, AcceptorNext(s))
  {
    var t := AcceptorNext(s);
    forall j: nat | j < BACKLOG ensures KeptSlot(o, t, j) {
      assert KeptSlot(o, s, j);
      assert Live(s, j) ==> Held(s, s.slots[j]);
    }
  }

  /** Whatever the accept task does until it waits again, it keeps all slots. */
  lemma {:induction false} SettleKeeps(o: State, s: State)
    requires Inv(o) && Inv(s) && o.receiver == s.receiver && Kept(o, s, -1) && CarriesNew(o, s)
    ensures Kept(o, Settle(s), -1)
    decreases Left(s.acceptor)
  {
    if !s.acceptor.Wait? {
      AcceptorKeeps(o, s);
      AcceptorInv(s);
      SettleKeeps(o, AcceptorNext(s));
    }
  }

  lemma {:induction false} AcceptKeeps(s: State, newFd: int)
    requires Inv(s) && s.acceptor == Wait
    ensures Kept(s, AfterAccept(s, newFd), -1)
  {
    KeptSame(s, s);
    if newFd > 0 && newFd !in s.kernel {
      AcceptedInv(s, newFd);
      var t := Next(s, Accepted(newFd), true);
      assert Kept(s, t, -1);
      SettleKeeps(s, t);
    }
  }

  /** Closing slot i's descriptor takes no other slot's connection away. */
  lemma {:induction false} CloseKeeps(s: State)
    requires Inv(s) && s.receiver.CloseFd?
    ensures var t := ReceiverNext(s, true); Kept(s, t, s.receiver.i) && Shut(s, t, s.slots[s.receiver.i])
  {
    var t, i := ReceiverNext(s, true), s.receiver.i;
    assert Live(s, i);
    forall j: nat | j < BACKLOG && j != i ensures KeptSlot(s, t, j) {
      assert s.slots[j] != EMPTY ==> Live(s, j);
    }
  }

  /** While no slot is being closed, the descriptors in the slots are open and distinct. */
  lemma {:induction false} TakenOpen(s: State, i: nat, j: nat)
    requires Inv(s) && i < BACKLOG && j < BACKLOG && !Closing(s, i) && !Closing(s, j)
    requires s.slots[i] != EMPTY && s.slots[j] != EMPTY
    ensures s.slots[j] in s.kernel && (i != j ==> s.slots[i] != s.slots[j])
  {
    assert Live(s, i) && Live(s, j);
  }

  lemma {:induction false} KeptEmptied(s: State, t: State, i: nat)
    requires i < |s.slots| == BACKLOG && t.slots == s.slots[i := EMPTY]
    requires t.kernel == s.kernel && t.nextConn == s.nextConn
    ensures Kept(s, t, i)
  {
  }

  lemma {:induction false} ReadyBut(s: State, t: State, i: nat)
    requires Inv(s) && s.receiver == Receive(i) && t.ready == s.ready - {s.slots[i]}
    ensures KeptReady(s, t, i)
  {
    forall j | 0 <= j < BACKLOG && j != i && s.slots[j] != EMPTY && s.slots[j] in s.ready
      ensures s.slots[j] in t.ready
    {
      TakenOpen(s, i, j);
    }
  }

  /** The descriptors in the first i slots are watched. */
  predicate Gathered(slots: seq<int>, i: nat, watched: set<int>) {
    forall j | 0 <= j < |slots| && j < i && slots[j] != EMPTY :: slots[j] in watched
  }

  lemma {:induction false} GatheredNext(s: State, m: State, i: nat, watched: set<int>, more: set<int>)
    requires Kept(s, m, -1) && i < BACKLOG && Gathered(s.slots, i, watched)
    requires watched <= more && (m.slots[i] != EMPTY ==> m.slots[i] in more)
    ensures Gathered(s.slots, i + 1, more)
  {
    assert KeptSlot(s, m, i);
  }

  // ----- What a scan comes to -----

  /** Slots up to i have been scanned: those reported whose connection is found closed are vacated,
      all others kept, and those to come still reported. */
  ghost predicate Scanned(s: State, t: State, i: nat, closes: nat -> bool) {
    && |s.slots| == |t.slots| == BACKLOG && s.nextConn <= t.nextConn && t.ready <= s.ready
    && (forall j: nat | j < BACKLOG && s.slots[j] != EMPTY ::
          if j < i && s.slots[j] in s.ready && closes(j) then Vacated(s, t, j) && Shut(s, t, s.slots[j])
          else KeptSlot(s, t, j))
    && (forall j: nat | i <= j < BACKLOG && s.slots[j] != EMPTY && s.slots[j] in s.ready :: s.slots[j] in t.ready)
  }

  /** What the scan of slot i makes of it. */
  ghost predicate ScannedSlot(s: State, t: State, i: nat, closes: bool) {
    && Kept(s, t, i) && KeptReady(s, t, i) && i < |s.slots|
    && (s.slots[i] != EMPTY ==>
          if s.slots[i] in s.ready && closes then t.slots[i] == EMPTY && Shut(s, t, s.slots[i])
          else KeptSlot(s, t, i))
  }

  lemma {:induction false} ScannedNext(s: State, m: State, t: State, i: nat, closes: nat -> bool)
    requires Scanned(s, m, i, closes) && i < BACKLOG && ScannedSlot(m, t, i, closes(i))
    ensures Scanned(s, t, i + 1, closes)
  {
    forall j: nat | j < BACKLOG && s.slots[j] != EMPTY
      ensures if j <= i && s.slots[j] in s.ready && closes(j) then Vacated(s, t, j) && Shut(s, t, s.slots[j])
              else KeptSlot(s, t, j)
    {
      if j != i {
        assert KeptSlot(m, t, j);
      }
    }
  }

  lemma {:induction false} ScanReceived(s: State, n: State, t: State, i: nat, closes: bool)
    requires Kept(s, n, -1) && n.ready == s.ready && i < BACKLOG
    requires KeptReady(n, t, i) && n.slots[i] in n.ready
    requires if closes then Kept(n, t, i) && t.slots[i] == EMPTY && Shut(n, t, n.slots[i]) else Kept(n, t, -1)
    ensures ScannedSlot(s, t, i, closes)
  {
    KeptBut(s, n, i);
    if !closes {
      KeptTwice(s, n, t, -1);
      KeptBut(n, t, i);
      assert KeptSlot(s, t, i);
    }
    KeptTwice(s, n, t, i);
    forall j: nat | j < BACKLOG && j != i && s.slots[j] != EMPTY && s.slots[j] in s.ready
      ensures s.slots[j] in t.ready
    {
      assert KeptSlot(s, n, j);
    }
    assert KeptSlot(s, n, i);
  }

  /** Of the descriptors in the slots those are reported that were picked. */
  predicate ReportedIn(slots: seq<int>, pick: set<int>, any: bool, ready: set<int>) {
    forall j | 0 <= j < |slots| && slots[j] != EMPTY :: slots[j] in pick <==> any && slots[j] in ready
  }

  lemma {:induction false} PickedIn(slots: seq<int>, pick: set<int>, watched: set<int>, open: set<int>, any: bool,
                                    ready: set<int>)
    requires any <==> pick * watched * open != {}
    requires any ==> ready == pick * watched * open
    requires forall j | 0 <= j < |slots| && slots[j] != EMPTY :: slots[j] in watched && slots[j] in open
    ensures ReportedIn(slots, pick, any, ready)
  {
    forall j | 0 <= j < |slots| && slots[j] != EMPTY ensures slots[j] in pick <==> any && slots[j] in ready {
      assert slots[j] in pick ==> slots[j] in pick * watched * open;
    }
  }

  /** All that is in the slots between two passes is open. */
  lemma {:induction false} TakenOpenAll(s: State, n: State)
    requires Kept(s, n, -1) && Inv(n) && n.receiver.Select?
    ensures forall j | 0 <= j < BACKLOG && s.slots[j] != EMPTY :: s.slots[j] in n.kernel
  {
    forall j: nat | j < BACKLOG && s.slots[j] != EMPTY ensures s.slots[j] in n.kernel {
      assert KeptSlot(s, n, j);
      TakenOpen(n, j, j);
    }
  }

  /** What a whole pass makes of the slots: s at its start, m behind select, t at its end. */
  lemma {:induction false} PassIs(s: State, m: State, t: State, pick: set<int>, closes: nat -> bool, any: bool)
    requires Kept(s, m, -1) && if any then Scanned(m, t, BACKLOG, closes) else t == m
    requires ReportedIn(s.slots, pick, any, m.ready)
    ensures forall j: nat | j < BACKLOG && s.slots[j] != EMPTY ::
              if s.slots[j] in pick && closes(j) then Vacated(s, t, j) && Shut(s, t, s.slots[j])
              else t.slots[j] == s.slots[j]
  {
    forall j: nat | j < BACKLOG && s.slots[j] != EMPTY
      ensures if s.slots[j] in pick && closes(j) then Vacated(s, t, j) && Shut(s, t, s.slots[j])
              else t.slots[j] == s.slots[j]
    {
      assert KeptSlot(s, m, j);
    }
  }

  class SockServer {
    const clientFd: array<int>
    var connNum: int
    var kernel: map<int, nat>
    var nextConn: nat
    var fdsr: set<int>
    ghost var reported: map<int, nat>
    ghost var receiver: Receiver
    ghost var acceptor: Acceptor

    ghost function View(): State
      reads this, clientFd
    {
      State(clientFd[..], connNum, kernel, nextConn, fdsr, reported, receiver, acceptor)
    }

    /** The record is in a state the two tasks can reach, the accept task waiting. */
    ghost predicate Valid()
      reads this, clientFd
    {
      clientFd.Length == BACKLOG && acceptor == Wait && Reachable(View(), true)
    }

    /** Every slot taken before, other than slot i, holds what it held. */
    twostate predicate KeepsOthers(new i: int)
      reads clientFd
    {
      forall j | 0 <= j < clientFd.Length && j != i && old(clientFd[j]) != EMPTY :: clientFd[j] == old(clientFd[j])
    }

    constructor ()
      ensures Valid() && View() == Init() && fresh(clientFd)
    {
      clientFd := new int[BACKLOG](_ => EMPTY);
      connNum, kernel, nextConn, fdsr := 0, map[], 0, {};
      reported, receiver, acceptor := map[], Idle, Wait;
      new;
      assert clientFd[..] == seq(BACKLOG, _ => EMPTY);
      SocketServer.Start(true);
    }

    /** The slot is filled, then counted. */
    method Fill(fd: int, i: nat)
      requires clientFd.Length == BACKLOG && i < BACKLOG && acceptor == Store(fd, i) && Reachable(View(), true)
      modifies this`connNum, this`acceptor, clientFd
      ensures View() == Settle(old(View())) && Valid() && KeepsOthers(i)
    {
      ghost var s := View();
      ghost var t := AcceptStep(s);
      clientFd[i] := fd;
      acceptor := Count(i);
      assert clientFd[..] == s.slots[i := fd];
      assert View() == t;
      t := AcceptStep(t);
      connNum := connNum + 1;
      acceptor := Wait;
    }

    /** Puts fd in the first empty slot and counts it; without one it stays out. */
    method Enter(fd: int)
      requires clientFd.Length == BACKLOG && acceptor == Search(fd, 0) && Reachable(View(), true)
      modifies this`connNum, this`acceptor, clientFd
      ensures View() == Settle(old(View())) && Valid() && KeepsOthers(-1)
    {
      var i := 0;
      while i < BACKLOG
        invariant i <= BACKLOG && acceptor == Search(fd, i) && Reachable(View(), true) && KeepsOthers(-1)
        invariant Settle(View()) == Settle(old(View()))
      {
        ghost var t := AcceptStep(View());
        if clientFd[i] == EMPTY {
          acceptor := Store(fd, i);
          assert View() == t;
          Fill(fd, i);
          return;
        }
        acceptor := Search(fd, i + 1);
        assert View() == t;
        i := i + 1;
      }
      ghost var t := AcceptStep(View());
      acceptor := Wait;
      assert View() == t;
    }    /** What the accept task does with the answer of accept. */
    method Accept(newFd: int)
      requires Valid()
      modifies this`connNum, this`kernel, this`nextConn, this`acceptor, clientFd
      ensures Valid() && View() == AfterAccept(old(View()), newFd) && KeepsOthers(-1)
    {
      if newFd <= 0 || newFd in kernel {
        return;
      }
      ghost var t := Do(View(), Accepted(newFd), true);
      kernel := kernel[newFd := nextConn];
      nextConn := nextConn + 1;
      acceptor := Got(newFd);
      assert View() == t;
      t := AcceptStep(t);
      if connNum < BACKLOG {
        acceptor := Search(newFd, 0);
        assert View() == t;
        Enter(newFd);
      } else {
        acceptor := Reject(newFd);
        assert View() == t;
        t := AcceptStep(t);
        kernel := kernel - {newFd};
        acceptor := Wait;
        assert View() == t;
      }
    }

    /** The connections that come in at one place of the receive task. */
    method Interrupts(fds: seq<int>)
      requires Valid()
      modifies this`connNum, this`kernel, this`nextConn, this`acceptor, clientFd
      ensures Valid() && Kept(old(View()), View(), -1)
    {
      ghost var s := View();
      KeptSame(s, s);
      for n := 0 to |fds|
        invariant Valid() && Kept(s, View(), -1)
      {
        ghost var m := View();
        ReachableInv(m, true);
        AcceptKeeps(m, fds[n]);
        Accept(fds[n]);
        KeptTwice(s, m, View(), -1);
      }
    }

    /** The test of slot i, and its descriptor for the set when it is taken. */
    method TestSlot(i: nat, watched: set<int>) returns (more: set<int>)
      requires Valid() && i < BACKLOG && receiver == Receiver.Collect(i, watched)
      modifies this`receiver
      ensures Valid() && receiver == Receiver.Collect(i + 1, more)
      ensures more == if clientFd[i] != EMPTY then watched + {clientFd[i]} else watched
    {
      ghost var t := Do(View(), ReceiverStep(false), true);
      more := watched;
      if clientFd[i] != EMPTY {
        more := more + {clientFd[i]};
      }
      receiver := Receiver.Collect(i + 1, more);
      assert View() == t;
    }

    method CollectSlot(i: nat, watched: set<int>, arrivals: (nat, nat) -> seq<int>) returns (more: set<int>)
      requires Valid() && i < BACKLOG && receiver == Receiver.Collect(i, watched)
      modifies this`connNum, this`kernel, this`nextConn, this`acceptor, this`receiver, clientFd
      ensures Valid() && receiver == Receiver.Collect(i + 1, more) && Kept(old(View()), View(), -1)
      ensures watched <= more && (old(clientFd[i]) != EMPTY ==> old(clientFd[i]) in more)
    {
      ghost var s := View();
      Interrupts(arrivals(i, 0));
      ghost var m := View();
      more := TestSlot(i, watched);
      KeptSame(m, View());
      KeptTwice(s, m, View(), -1);
      assert KeptSlot(s, m, i);
    }

    /** Gathers the descriptors to watch: none that is in a slot is left out. */
    method Collect(arrivals: (nat, nat) -> seq<int>) returns (watched: set<int>)
      requires Valid() && receiver == Receiver.Collect(0, {})
      modifies this`connNum, this`kernel, this`nextConn, this`acceptor, this`receiver, clientFd
      ensures Valid() && receiver == Select(watched) && Kept(old(View()), View(), -1)
      ensures forall j | 0 <= j < BACKLOG && old(clientFd[j]) != EMPTY :: old(clientFd[j]) in watched
    {
      ghost var s := View();
      watched := {};
      KeptSame(s, s);
      for i := 0 to BACKLOG
        invariant Valid() && receiver == Receiver.Collect(i, watched) && Kept(s, View(), -1)
        invariant Gathered(s.slots, i, watched)
      {
        ghost var m, before := View(), watched;
        watched := CollectSlot(i, watched, arrivals);
        GatheredNext(s, m, i, before, watched);
        KeptTwice(s, m, View(), -1);
      }
      ghost var m := View();
      EndCollect(watched);
      KeptSame(m, View());
      KeptTwice(s, m, View(), -1);
    }

    method EndCollect(watched: set<int>)
      requires Valid() && receiver == Receiver.Collect(BACKLOG, watched)
      modifies this`receiver
      ensures Valid() && receiver == Select(watched)
    {
      ghost var t := Do(View(), ReceiverStep(false), true);
      receiver := Select(watched);
      assert View() == t;
    }

    /** select: of the watched descriptors that are still open, any may be reported. */
    method Report(watched: set<int>, pick: set<int>) returns (any: bool)
      requires Valid() && receiver == Select(watched)
      modifies this`fdsr, this`reported, this`receiver
      ensures Valid()
      ensures any ==> fdsr == pick * watched * kernel.Keys
      ensures any <==> pick * watched * kernel.Keys != {}
      ensures receiver == if any then Scan(0) else Idle
    {
      var fds := pick * watched * kernel.Keys;
      ghost var t := Do(View(), SelectReports(fds), true);
      if fds == {} {
        receiver := Idle;
      } else {
        fdsr := fds;
        reported := map f | f in fds :: kernel[f];
        receiver := Scan(0);
      }
      assert View() == t;
      any := fds != {};
    }

    /** close */
    method CloseSocket(i: nat)
      requires Valid() && i < BACKLOG && receiver == CloseFd(i)
      modifies this`kernel, this`receiver
      ensures Valid() && receiver == Clear(i) && View() == ReceiverNext(old(View()), true)
    {
      ghost var t := DoReceiver(View(), true, true);
      kernel := kernel - {clientFd[i]};
      receiver := Clear(i);
      assert View() == t;
    }

    method CloseIt(i: nat, arrivals: (nat, nat) -> seq<int>)
      requires Valid() && i < BACKLOG && receiver == CloseFd(i)
      modifies this`connNum, this`kernel, this`nextConn, this`acceptor, this`receiver, clientFd
      ensures Valid() && receiver == Clear(i) && Kept(old(View()), View(), i) && clientFd[i] == old(clientFd[i])
      ensures Shut(old(View()), View(), old(clientFd[i]))
    {
      ghost var s := View();
      Interrupts(arrivals(i, 4));
      ghost var m := View();
      ReachableInv(s, true);
      ReachableInv(m, true);
      assert KeptSlot(s, m, i);
      CloseKeeps(m);
      CloseSocket(i);
      KeptBut(s, m, i);
      KeptTwice(s, m, View(), i);
    }

    /** FD_CLR */
    method Unwatch(i: nat)
      requires Valid() && i < BACKLOG && receiver == Clear(i)
      modifies this`fdsr, this`receiver
      ensures Valid() && receiver == Decrement(i) && fdsr == old(fdsr) - {clientFd[i]}
    {
      ghost var t := Do(View(), ReceiverStep(true), true);
      fdsr := fdsr - {clientFd[i]};
      receiver := Decrement(i);
      assert View() == t;
    }

    method UnwatchIt(i: nat, arrivals: (nat, nat) -> seq<int>)
      requires Valid() && i < BACKLOG && receiver == Clear(i)
      modifies this, clientFd
      ensures Valid() && receiver == Decrement(i) && Kept(old(View()), View(), i)
      ensures fdsr == old(fdsr) - {old(clientFd[i])}
    {
      ghost var s := View();
      ReachableInv(s, true);
      Interrupts(arrivals(i, 5));
      ghost var m := View();
      assert KeptSlot(s, m, i);
      Unwatch(i);
      KeptSame(m, View());
      KeptTwice(s, m, View(), -1);
      KeptBut(s, View(), i);
    }

    method Uncount(i: nat)
      requires Valid() && i < BACKLOG && receiver == Decrement(i)
      modifies this`connNum, this`receiver
      ensures Valid() && receiver == Free(i)
    {
      ghost var t := DoReceiver(View(), true, true);
      connNum := connNum - 1;
      receiver := Free(i);
      assert View() == t;
    }

    method UncountIt(i: nat, arrivals: (nat, nat) -> seq<int>)
      requires Valid() && i < BACKLOG && receiver == Decrement(i)
      modifies this`connNum, this`kernel, this`nextConn, this`acceptor, this`receiver, clientFd
      ensures Valid() && receiver == Free(i) && Kept(old(View()), View(), -1)
    {
      ghost var s := View();
      Interrupts(arrivals(i, 6));
      ghost var m := View();
      Uncount(i);
      KeptSame(m, View());
      KeptTwice(s, m, View(), -1);
    }

    method EmptySlot(i: nat)
      requires Valid() && i < BACKLOG && receiver == Free(i)
      modifies this`receiver, clientFd
      ensures Valid() && receiver == Scan(i + 1) && clientFd[..] == old(clientFd[..])[i := EMPTY]
    {
      ghost var s := View();
      ghost var t := Do(s, ReceiverStep(true), true);
      clientFd[i] := EMPTY;
      receiver := Scan(i + 1);
      assert clientFd[..] == s.slots[i := EMPTY];
      assert View() == t;
    }

    /** Counts the connection off, then empties its slot. */
    method CountOff(i: nat, arrivals: (nat, nat) -> seq<int>)
      requires Valid() && i < BACKLOG && receiver == Decrement(i)
      modifies this`connNum, this`kernel, this`nextConn, this`acceptor, this`receiver, clientFd
      ensures Valid() && receiver == Scan(i + 1) && clientFd[i] == EMPTY && Kept(old(View()), View(), i)
    {
      ghost var s := View();
      UncountIt(i, arrivals);
      ghost var m := View();
      Interrupts(arrivals(i, 7));
      ghost var n := View();
      KeptTwice(s, m, n, -1);
      KeptBut(s, n, i);
      EmptySlot(i);
      KeptEmptied(n, View(), i);
      KeptTwice(s, n, View(), i);
    }

    /** The connection in slot i is gone: closes it, counts it off and empties the slot. */
    method Leave(i: nat, arrivals: (nat, nat) -> seq<int>)
      requires Valid() && i < BACKLOG && receiver == CloseFd(i)
      modifies this, clientFd
      ensures Valid() && receiver == Scan(i + 1) && clientFd[i] == EMPTY && Kept(old(View()), View(), i)
      ensures Shut(old(View()), View(), old(clientFd[i])) && fdsr == old(fdsr) - {old(clientFd[i])}
    {
      ghost var s := View();
      CloseIt(i, arrivals);
      ghost var m := View();
      UnwatchIt(i, arrivals);
      ghost var n := View();
      KeptTwice(s, m, n, i);
      ShutStays(s, m, n, i, s.slots[i]);
      CountOff(i, arrivals);
      KeptTwice(s, n, View(), i);
      ShutStays(s, n, View(), i, s.slots[i]);
    }

    /** recv may be called: the descriptor was reported, is open, and stands for the connection reported. */
    method Recv(fd: int, closes: bool) returns (closed: bool)
      requires fd in fdsr && fd in kernel && fd in reported && kernel[fd] == reported[fd]
      ensures closed == closes
    {
      closed := closes;
    }

    /** Whether slot i is taken. */
    method TestTaken(i: nat) returns (taken: bool)
      requires Valid() && i < BACKLOG && receiver == Scan(i)
      modifies this`receiver
      ensures Valid() && (taken <==> clientFd[i] != EMPTY) && receiver == if taken then Test(i) else Scan(i + 1)
    {
      ghost var t := DoReceiver(View(), true, true);
      taken := clientFd[i] != EMPTY;
      receiver := if taken then Test(i) else Scan(i + 1);
      assert View() == t;
    }

    method TakenIt(i: nat, arrivals: (nat, nat) -> seq<int>) returns (taken: bool)
      requires Valid() && i < BACKLOG && receiver == Scan(i)
      modifies this`connNum, this`kernel, this`nextConn, this`acceptor, this`receiver, clientFd
      ensures Valid() && (taken <==> clientFd[i] != EMPTY) && receiver == if taken then Test(i) else Scan(i + 1)
      ensures Kept(old(View()), View(), -1)
    {
      ghost var s := View();
      Interrupts(arrivals(i, 1));
      ghost var m := View();
      taken := TestTaken(i);
      KeptSame(m, View());
      KeptTwice(s, m, View(), -1);
    }

    /** Whether it is ready. */
    method TestReady(i: nat) returns (isReady: bool)
      requires Valid() && i < BACKLOG && receiver == Test(i)
      modifies this`receiver
      ensures Valid() && (isReady <==> clientFd[i] in fdsr) && receiver == if isReady then Receive(i) else Scan(i + 1)
    {
      ghost var t := DoReceiver(View(), true, true);
      isReady := clientFd[i] in fdsr;
      receiver := if isReady then Receive(i) else Scan(i + 1);
      assert View() == t;
    }

    method ReadyIt(i: nat, arrivals: (nat, nat) -> seq<int>) returns (isReady: bool)
      requires Valid() && i < BACKLOG && receiver == Test(i)
      modifies this`connNum, this`kernel, this`nextConn, this`acceptor, this`receiver, clientFd
      ensures Valid() && (isReady <==> clientFd[i] in fdsr) && receiver == if isReady then Receive(i) else Scan(i + 1)
      ensures Kept(old(View()), View(), -1)
    {
      ghost var s := View();
      Interrupts(arrivals(i, 2));
      ghost var m := View();
      isReady := TestReady(i);
      KeptSame(m, View());
      KeptTwice(s, m, View(), -1);
    }

    /** Receives from it. */
    method ReceiveOnce(i: nat, closes: bool) returns (closed: bool)
      requires Valid() && i < BACKLOG && receiver == Receive(i)
      modifies this`receiver
      ensures Valid() && closed == closes && receiver == if closed then CloseFd(i) else Scan(i + 1)
    {
      ReceiveOnReady(View(), true);
      closed := Recv(clientFd[i], closes);
      ghost var t := DoReceiver(View(), closed, true);
      receiver := if closed then CloseFd(i) else Scan(i + 1);
      assert View() == t;
    }

    method ReceiveIt(i: nat, closes: bool, arrivals: (nat, nat) -> seq<int>) returns (closed: bool)
      requires Valid() && i < BACKLOG && receiver == Receive(i)
      modifies this`connNum, this`kernel, this`nextConn, this`acceptor, this`receiver, clientFd
      ensures Valid() && closed == closes && receiver == if closed then CloseFd(i) else Scan(i + 1)
      ensures Kept(old(View()), View(), -1)
    {
      ghost var s := View();
      Interrupts(arrivals(i, 3));
      ghost var m := View();
      closed := ReceiveOnce(i, closes);
      KeptSame(m, View());
      KeptTwice(s, m, View(), -1);
    }

    method ReceiveFrom(i: nat, closes: bool, arrivals: (nat, nat) -> seq<int>)
      requires Valid() && i < BACKLOG && receiver == Receive(i)
      modifies this, clientFd
      ensures Valid() && receiver == Scan(i + 1) && KeptReady(old(View()), View(), i)
      ensures !closes ==> Kept(old(View()), View(), -1)
      ensures closes ==> Kept(old(View()), View(), i) && clientFd[i] == EMPTY
      ensures closes ==> Shut(old(View()), View(), old(clientFd[i]))
    {
      ghost var s := View();
      ReachableInv(s, true);
      var closed := ReceiveIt(i, closes, arrivals);
      if closed {
        ghost var m := View();
        assert KeptSlot(s, m, i);
        Leave(i, arrivals);
        KeptBut(s, m, i);
        KeptTwice(s, m, View(), i);
        ReadyBut(s, View(), i);
      }
    }

    /** One slot of the scan behind select. */
    method ScanSlot(i: nat, closes: bool, arrivals: (nat, nat) -> seq<int>)
      requires Valid() && i < BACKLOG && receiver == Scan(i)
      modifies this, clientFd
      ensures Valid() && receiver == Scan(i + 1) && ScannedSlot(old(View()), View(), i, closes)
    {
      ghost var s := View();
      var taken := TakenIt(i, arrivals);
      ghost var m := View();
      KeptBut(s, m, i);
      assert KeptSlot(s, m, i);
      if !taken {
        return;
      }
      var isReady := ReadyIt(i, arrivals);
      ghost var n := View();
      KeptTwice(s, m, n, -1);
      KeptBut(s, n, i);
      assert KeptSlot(s, n, i);
      if isReady {
        ReceiveFrom(i, closes, arrivals);
        ScanReceived(s, n, View(), i, closes);
      }
    }

    /** The scan behind select. */
    method ScanAll(closes: nat -> bool, arrivals: (nat, nat) -> seq<int>)
      requires Valid() && receiver == Scan(0)
      modifies this, clientFd
      ensures Valid() && receiver == Idle && Scanned(old(View()), View(), BACKLOG, closes)
    {
      ghost var s := View();
      for i := 0 to BACKLOG
        invariant Valid() && receiver == Scan(i) && Scanned(s, View(), i, closes)
      {
        ghost var m := View();
        ScanSlot(i, closes(i), arrivals);
        ScannedNext(s, m, View(), i, closes);
      }
      ghost var t := Do(View(), ReceiverStep(false), true);
      receiver := Idle;
      assert View() == t;
    }

    /** Without a connection counted no slot is taken. */
    lemma {:induction false} NoneTaken()
      requires Valid() && receiver == Idle
      ensures 0 <= connNum == Occupied(clientFd[..])
      ensures connNum < 1 ==> forall j | 0 <= j < BACKLOG :: clientFd[j] == EMPTY
    {
      CountBounds(View());
      forall j | 0 <= j < BACKLOG && clientFd[j] != EMPTY ensures connNum >= 1 {
        OccupiedAtLeast(clientFd[..], j, j);
      }
    }

    /** Up to the call of select. */
    method Gather(arrivals: (nat, nat) -> seq<int>) returns (watched: set<int>)
      requires Valid() && receiver == Idle && connNum >= 1
      modifies this`connNum, this`kernel, this`nextConn, this`acceptor, this`receiver, clientFd
      ensures Valid() && receiver == Select(watched) && Kept(old(View()), View(), -1)
      ensures forall j | 0 <= j < BACKLOG && old(clientFd[j]) != EMPTY ::
                old(clientFd[j]) in watched && old(clientFd[j]) in kernel
    {
      ghost var s := View();
      ghost var t := Do(s, StartPass, true);
      receiver := Receiver.Collect(0, {});
      assert View() == t;
      KeptSame(s, t);
      watched := Collect(arrivals);
      ghost var m := View();
      Interrupts(arrivals(BACKLOG, 0));
      KeptTwice(s, t, m, -1);
      KeptTwice(s, m, View(), -1);
      ReachableInv(View(), true);
      TakenOpenAll(s, View());
    }

    /** Up to what select reports. */
    method Watch(pick: set<int>, arrivals: (nat, nat) -> seq<int>) returns (any: bool)
      requires Valid() && receiver == Idle && connNum >= 1
      modifies this, clientFd
      ensures Valid() && receiver == (if any then Scan(0) else Idle) && Kept(old(View()), View(), -1)
      ensures ReportedIn(old(clientFd[..]), pick, any, fdsr)
    {
      ghost var s := View();
      var watched := Gather(arrivals);
      ghost var n := View();
      any := Report(watched, pick);
      KeptSame(n, View());
      KeptTwice(s, n, View(), -1);
      PickedIn(s.slots, pick, watched, kernel.Keys, any, fdsr);
    }

    /**
     One pass of the receive task: pick is what select reports, closes which
     connections recv finds closed, arrivals what the accept task is given
     before each statement. The pass only goes through states of the machine, so
     that its theorems hold of this code. Every connection that was reported and
     found closed has left: its descriptor is closed and its slot empty, unless a
     connection accepted in the meantime has them. No other is taken out of the table.
     */
    method ReceivePass(pick: set<int>, closes: nat -> bool, arrivals: (nat, nat) -> seq<int>)
      requires Valid() && receiver == Idle
      modifies this, clientFd
      ensures Valid() && receiver == Idle
      ensures 0 <= connNum == Occupied(clientFd[..])
      ensures forall j | 0 <= j < BACKLOG && old(clientFd[j]) != EMPTY && !(old(clientFd[j]) in pick && closes(j)) ::
                clientFd[j] == old(clientFd[j])
      ensures forall j | 0 <= j < BACKLOG && old(clientFd[j]) != EMPTY && old(clientFd[j]) in pick && closes(j) ::
                && (clientFd[j] == EMPTY || (clientFd[j] in kernel && kernel[clientFd[j]] >= old(nextConn)))
                && (old(clientFd[j]) !in kernel || kernel[old(clientFd[j])] >= old(nextConn))
    {
      NoneTaken();
      if connNum < 1 {
        return;
      }
      ghost var s := View();
      var any := Watch(pick, arrivals);
      ghost var m := View();
      if any {
        ScanAll(closes, arrivals);
      }
      NoneTaken();
      PassIs(s, m, View(), pick, closes, any);
    }
  }

  /** The state once the accept task waits again, having been given this descriptor. */
  function AfterAccept(s: State, newFd: int): State
    requires |s.slots| == BACKLOG && s.acceptor == Wait
  {
    if newFd > 0 && newFd !in s.kernel then Settle(Next(s, Accepted(newFd), true)) else s
  }

  /** What becomes of the answer of accept: an error, or a descriptor that is open already, is passed
      over; at seven connections the new one is closed again; otherwise it gets an empty slot and is
      counted, except while the last free slot is just being vacated: then it stays open and in none. */
  lemma {:induction false} AcceptMeans(s: State, newFd: int)
    requires Reachable(s, true) && s.acceptor == Wait && |s.slots| == BACKLOG
    ensures var t := AfterAccept(s, newFd);
      if newFd <= 0 || newFd in s.kernel then t == s
      else if s.connNum >= 7 then t.slots == s.slots && newFd !in t.kernel
      else if s.receiver.Free? && s.connNum == 6 then t.slots == s.slots && newFd in t.kernel
      else newFd in t.kernel && exists j: nat ::
             j < 7 && s.slots[j] == EMPTY && t.slots == s.slots[j := newFd] && t.connNum == s.connNum + 1
  {
    if newFd > 0 && newFd !in s.kernel {
      var t := Do(s, Accepted(newFd), true);
      AcceptedIsStored(t);
    }
  }

  /** One step of the accept task on its way. */
  lemma {:induction false} AcceptStep(s: State) returns (t: State)
    requires Reachable(s, true) && |s.slots| == BACKLOG && !s.acceptor.Wait?
    requires s.acceptor.Store? ==> s.acceptor.i < BACKLOG
    ensures t == AcceptorNext(s) && Reachable(t, true) && Settle(t) == Settle(s)
    ensures t.acceptor.Wait? ==> Settle(t) == t
  {
    t := Do(s, AcceptorStep, true);
  }
}
