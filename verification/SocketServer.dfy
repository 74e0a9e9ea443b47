/**
 The socket server demo: the accept task and the receive task share the table
 of client descriptors and the connection count. Every access to shared state
 is a step of its own; the steps of the two tasks interleave.
 */
module SocketServer {

  const BACKLOG: nat := 7
  const EMPTY := -1

  /** The receive task. Sets of descriptors travel with the place in the code:
      those being collected for select, then those select reported ready. */
  datatype Receiver =
    | Idle
    | Collect(i: nat, watched: set<int>)
    | Select(watched: set<int>)
    | Scan(i: nat)        // about to test slot i for -1
    | Test(i: nat)        // slot i is taken; about to test whether it is ready
    | Receive(i: nat)     // about to call recv on slot i
    | CloseFd(i: nat)     // about to close the descriptor in slot i
    | Clear(i: nat)       // closed; about to take it out of the ready set
    | Decrement(i: nat)   // about to count the connection off
    | Free(i: nat)        // about to empty the slot

  datatype Acceptor =
    | Wait
    | Got(fd: int)              // accepted; about to test the count
    | Reject(fd: int)           // too many; about to close it
    | Search(fd: int, i: nat)   // about to test slot i
    | Store(fd: int, i: nat)    // slot i was free; about to fill it
    | Count(i: nat)             // slot i filled; about to count it

  /** The shared table and count, the live descriptors with the connection each
      stands for, the tasks, and the connections select reported. */
  datatype State = State(
    slots: seq<int>, connNum: int, kernel: map<int, nat>, nextConn: nat,
    ready: set<int>, reported: map<int, nat>, receiver: Receiver, acceptor: Acceptor)

  datatype Step =
    | StartPass
    | SelectReports(fds: set<int>)
    | ReceiverStep(closed: bool)   // whether recv found the connection closed
    | Accepted(fd: int)
    | AcceptorStep

  function Init(): State {
    State(seq(BACKLOG, _ => EMPTY), 0, map[], 0, {}, map[], Idle, Wait)
  }

  function ReceiverNext(s: State, closed: bool): State
    requires |s.slots| == BACKLOG
  {
    match s.receiver
    case Collect(i, watched) =>
      if i >= BACKLOG then s.(receiver := Select(watched))
      else s.(receiver := Collect(i + 1, if s.slots[i] != EMPTY then watched + {s.slots[i]} else watched))
    case Scan(i) =>
      if i >= BACKLOG then s.(receiver := Idle)
      else if s.slots[i] == EMPTY then s.(receiver := Scan(i + 1))
      else s.(receiver := Test(i))
    case Test(i) =>
      if i < BACKLOG && s.slots[i] in s.ready then s.(receiver := Receive(i)) else s.(receiver := Scan(i + 1))
    case Receive(i) =>
      s.(receiver := if closed then CloseFd(i) else Scan(i + 1))
    case CloseFd(i) =>
      if i >= BACKLOG then s else s.(kernel := s.kernel - {s.slots[i]}, receiver := Clear(i))
    case Clear(i) =>
      if i >= BACKLOG then s else s.(ready := s.ready - {s.slots[i]}, receiver := Decrement(i))
    case Decrement(i) =>
      s.(connNum := s.connNum - 1, receiver := Free(i))
    case Free(i) =>
      if i >= BACKLOG then s else s.(slots := s.slots[i := EMPTY], receiver := Scan(i + 1))
    case _ => s
  }

  function AcceptorNext(s: State): State
    requires |s.slots| == BACKLOG
  {
    match s.acceptor
    case Got(fd) =>
      s.(acceptor := if s.connNum < BACKLOG then Search(fd, 0) else Reject(fd))
    case Reject(fd) =>
      s.(kernel := s.kernel - {fd}, acceptor := Wait)
    case Search(fd, i) =>
      if i >= BACKLOG then s.(acceptor := Wait)
      else s.(acceptor := if s.slots[i] == EMPTY then Store(fd, i) else Search(fd, i + 1))
    case Store(fd, i) =>
      if i >= BACKLOG then s else s.(slots := s.slots[i := fd], acceptor := Count(i))
    case Count(i) =>
      s.(connNum := s.connNum + 1, acceptor := Wait)
    case Wait => s
  }

  /** A step of the receive task that is not enabled changes nothing. */
  function ReceiverMove(s: State, step: Step): (t: State)
    requires |s.slots| == BACKLOG
    ensures |t.slots| == BACKLOG
  {
    match step
    case StartPass =>
      if s.receiver == Idle && s.connNum >= 1 then s.(receiver := Collect(0, {})) else s
    case SelectReports(fds) =>
      if s.receiver.Select? && fds <= s.receiver.watched && fds <= s.kernel.Keys
      then if fds == {} then s.(receiver := Idle)
           else s.(ready := fds, reported := map f | f in fds :: s.kernel[f], receiver := Scan(0))
      else s
    case ReceiverStep(closed) => ReceiverNext(s, closed)
    case _ => s
  }

  /** One step of either task. With preempts, the accept task has priority: the
      receive task runs only while the other waits for a connection. */
  function Next(s: State, step: Step, preempts: bool): (t: State)
    requires |s.slots| == BACKLOG
    ensures |t.slots| == BACKLOG
  {
    match step
    case Accepted(fd) =>
      if s.acceptor == Wait && fd > 0 && fd !in s.kernel
      then s.(kernel := s.kernel[fd := s.nextConn], nextConn := s.nextConn + 1, acceptor := Got(fd))
      else s
    case AcceptorStep => AcceptorNext(s)
    case _ => if preempts && s.acceptor != Wait then s else ReceiverMove(s, step)
  }

  function Run(steps: seq<Step>, preempts: bool): (s: State)
    ensures |s.slots| == BACKLOG
  {
    if steps == [] then Init() else Next(Run(steps[..|steps| - 1], preempts), steps[|steps| - 1], preempts)
  }

  ghost predicate Reachable(s: State, preempts: bool) {
    exists steps :: Run(steps, preempts) == s
  }

  // ----- What every step keeps: the descriptors -----

  /** Slot i is being closed: its descriptor is already gone. */
  predicate Closing(s: State, i: nat) {
    s.receiver == Clear(i) || s.receiver == Decrement(i) || s.receiver == Free(i)
  }

  predicate Live(s: State, i: nat) {
    i < |s.slots| && s.slots[i] != EMPTY && !Closing(s, i)
  }

  ghost predicate Held(s: State, fd: int) {
    exists i: nat :: Live(s, i) && s.slots[i] == fd
  }

  /** The accept task has a descriptor it has not stored anywhere yet. */
  predicate Carries(a: Acceptor) {
    a.Got? || a.Reject? || a.Search? || a.Store?
  }

  ghost predicate Table(s: State) {
    && |s.slots| == BACKLOG
    && (forall i: nat | Live(s, i) :: s.slots[i] in s.kernel)
    && (forall i: nat, j: nat | Live(s, i) && Live(s, j) && i != j :: s.slots[i] != s.slots[j])
    && (Carries(s.acceptor) ==>
          s.acceptor.fd != EMPTY && s.acceptor.fd in s.kernel && !Held(s, s.acceptor.fd))
    && (s.acceptor.Store? ==> s.acceptor.i < BACKLOG && s.slots[s.acceptor.i] == EMPTY)
  }

  /** Where the receive task is, its slot is taken. */
  ghost predicate Place(s: State) {
    match s.receiver
    case Idle => true
    case Collect(i, watched) => forall f | f in watched :: Held(s, f)
    case Select(watched) => forall f | f in watched :: Held(s, f)
    case Scan(i) => true
    case Test(i) => i < |s.slots| && s.slots[i] != EMPTY
    case Receive(i) => i < |s.slots| && s.slots[i] != EMPTY && s.slots[i] in s.ready
    case CloseFd(i) => i < |s.slots| && s.slots[i] != EMPTY && s.slots[i] in s.ready
    case Clear(i) => i < |s.slots| && s.slots[i] != EMPTY
    case Decrement(i) => i < |s.slots| && s.slots[i] != EMPTY && s.slots[i] !in s.ready
    case Free(i) => i < |s.slots| && s.slots[i] != EMPTY && s.slots[i] !in s.ready
  }

  predicate Scanning(s: State) {
    !s.receiver.Idle? && !s.receiver.Collect? && !s.receiver.Select?
  }

  /** A ready descriptor still stands for the connection select reported, except
      between closing it and taking it out of the ready set. */
  ghost predicate Reported(s: State) {
    Scanning(s) ==> forall f | f in s.ready ::
      || (s.receiver.Clear? && s.receiver.i < |s.slots| && f == s.slots[s.receiver.i])
      || (Held(s, f) && f in s.kernel && f in s.reported && s.kernel[f] == s.reported[f])
  }

  ghost predicate Inv(s: State) {
    Table(s) && Place(s) && Reported(s)
  }

  lemma {:induction false} InitInv()
    ensures Inv(Init())
  {
  }

  /** Slots that stay live stay where they are. */
  lemma {:induction false} HeldKept(s: State, t: State, fd: int)
    requires Held(s, fd)
    requires forall i: nat | Live(s, i) && s.slots[i] == fd :: Live(t, i) && t.slots[i] == fd
    ensures Held(t, fd)
  {
    var i: nat :| Live(s, i) && s.slots[i] == fd;
    assert Live(t, i) && t.slots[i] == fd;
  }

  lemma {:induction false} HeldSame(s: State, t: State)
    requires s.slots == t.slots && forall i: nat :: Live(s, i) <==> Live(t, i)
    ensures forall f :: Held(s, f) <==> Held(t, f)
  {
    forall f ensures Held(s, f) <==> Held(t, f) {
      if Held(s, f) { HeldKept(s, t, f); }
      if Held(t, f) { HeldKept(t, s, f); }
    }
  }

  lemma {:induction false} AcceptedInv(s: State, fd: int)
    requires Inv(s) && s.acceptor == Wait && fd > 0 && fd !in s.kernel
    ensures Inv(Next(s, Accepted(fd), false))
  {
    HeldSame(s, Next(s, Accepted(fd), false));
  }

  lemma {:induction false} StoreInv(s: State)
    requires Inv(s) && s.acceptor.Store?
    ensures Inv(AcceptorNext(s))
  {
    var t := AcceptorNext(s);
    var fd, i := s.acceptor.fd, s.acceptor.i;
    forall f | Held(s, f) ensures Held(t, f) {
      HeldKept(s, t, f);
    }
    forall j: nat | Live(s, j) ensures s.slots[j] != fd {
      assert Held(s, s.slots[j]);
    }
    assert forall j: nat | Live(t, j) :: j == i || Live(s, j);
  }

  lemma {:induction false} RejectInv(s: State)
    requires Inv(s) && s.acceptor.Reject?
    ensures Inv(AcceptorNext(s))
  {
    HeldSame(s, AcceptorNext(s));
    forall i: nat | Live(s, i) ensures s.slots[i] != s.acceptor.fd {
      assert Held(s, s.slots[i]);
    }
  }

  lemma {:induction false} AcceptorInv(s: State)
    requires Inv(s)
    ensures Inv(AcceptorNext(s))
  {
    if s.acceptor.Store? {
      StoreInv(s);
    } else if s.acceptor.Reject? {
      RejectInv(s);
    } else {
      HeldSame(s, AcceptorNext(s));
    }
  }

  lemma {:induction false} SelectInv(s: State, fds: set<int>)
    requires Inv(s)
    ensures Inv(Next(s, SelectReports(fds), false))
  {
    HeldSame(s, Next(s, SelectReports(fds), false));
  }

  lemma {:induction false} CloseInv(s: State)
    requires Inv(s) && s.receiver.CloseFd?
    ensures Inv(ReceiverNext(s, true))
  {
    var t := ReceiverNext(s, true);
    var i := s.receiver.i;
    assert Live(s, i);
    forall f | f != s.slots[i] && Held(s, f) ensures Held(t, f) {
      HeldKept(s, t, f);
    }
    forall f | Held(t, f) ensures Held(s, f) {
      HeldKept(t, s, f);
    }
    assert Held(s, s.slots[i]);
  }

  lemma {:induction false} FreeInv(s: State)
    requires Inv(s) && s.receiver.Free?
    ensures Inv(ReceiverNext(s, true))
  {
    var t := ReceiverNext(s, true);
    forall f ensures Held(s, f) <==> Held(t, f) {
      if Held(s, f) { HeldKept(s, t, f); }
      if Held(t, f) { HeldKept(t, s, f); }
    }
  }

  lemma {:induction false} CollectInv(s: State)
    requires Inv(s) && s.receiver.Collect?
    ensures Inv(ReceiverNext(s, true))
  {
    HeldSame(s, ReceiverNext(s, true));
    if s.receiver.i < BACKLOG && s.slots[s.receiver.i] != EMPTY {
      assert Live(s, s.receiver.i);
    }
  }

  lemma {:induction false} ScanInv(s: State, closed: bool)
    requires Inv(s) && (s.receiver.Scan? || s.receiver.Test? || s.receiver.Receive?)
    ensures Inv(ReceiverNext(s, closed))
  {
    HeldSame(s, ReceiverNext(s, closed));
  }

  lemma {:induction false} ClearInv(s: State)
    requires Inv(s) && (s.receiver.Clear? || s.receiver.Decrement?)
    ensures Inv(ReceiverNext(s, true))
  {
    HeldSame(s, ReceiverNext(s, true));
  }

  lemma {:induction false} ReceiverInv(s: State, closed: bool)
    requires Inv(s)
    ensures Inv(ReceiverNext(s, closed))
  {
    match s.receiver
    case Idle =>
    case Collect(_, _) => CollectInv(s);
    case Select(_) =>
    case Scan(_) => ScanInv(s, closed);
    case Test(_) => ScanInv(s, closed);
    case Receive(_) => ScanInv(s, closed);
    case CloseFd(_) => CloseInv(s);
    case Clear(_) => ClearInv(s);
    case Decrement(_) => ClearInv(s);
    case Free(_) => FreeInv(s);
  }

  lemma {:induction false} StepInv(s: State, step: Step, preempts: bool)
    requires Inv(s)
    ensures Inv(Next(s, step, preempts))
  {
    match step
    case Accepted(fd) => if s.acceptor == Wait && fd > 0 && fd !in s.kernel { AcceptedInv(s, fd); }
    case AcceptorStep => AcceptorInv(s);
    case ReceiverStep(closed) => ReceiverInv(s, closed);
    case SelectReports(fds) => SelectInv(s, fds);
    case StartPass => HeldSame(s, Next(s, StartPass, preempts));
  }

  lemma {:induction false} RunInv(steps: seq<Step>, preempts: bool)
    ensures Inv(Run(steps, preempts))
  {
    if steps == [] {
      InitInv();
    } else {
      RunInv(steps[..|steps| - 1], preempts);
      StepInv(Run(steps[..|steps| - 1], preempts), steps[|steps| - 1], preempts);
    }
  }

  lemma {:induction false} ReachableInv(s: State, preempts: bool)
    requires Reachable(s, preempts)
    ensures Inv(s)
  {
    var steps :| Run(steps, preempts) == s;
    RunInv(steps, preempts);
  }

  // ----- Receive on ready -----

  /** Recv is called only on a live descriptor that select reported, and it still
      stands for the connection it was reported for. */
  lemma {:induction false} ReceiveOnReady(s: State, preempts: bool)
    requires Reachable(s, preempts) && s.receiver.Receive?
    ensures s.receiver.i < BACKLOG
    ensures var fd := s.slots[s.receiver.i];
            fd in s.ready && fd in s.kernel && fd in s.reported && s.kernel[fd] == s.reported[fd]
  {
    ReachableInv(s, preempts);
  }

  /** The accept task fills only an empty slot, never the one being closed, and
      with a descriptor no live slot holds. */
  lemma {:induction false} StoreIsSafe(s: State, preempts: bool)
    requires Reachable(s, preempts) && s.acceptor.Store?
    ensures s.acceptor.i < BACKLOG && s.slots[s.acceptor.i] == EMPTY && !Closing(s, s.acceptor.i)
    ensures s.acceptor.fd in s.kernel
    ensures forall i: nat | Live(s, i) :: s.slots[i] != s.acceptor.fd
  {
    ReachableInv(s, preempts);
    forall i: nat | Live(s, i) ensures s.slots[i] != s.acceptor.fd {
      assert Held(s, s.slots[i]);
    }
  }

  // ----- Counting -----

  function Occupied(slots: seq<int>): (n: nat)
    ensures n <= |slots|
  {
    if slots == [] then 0 else (if slots[0] != EMPTY then 1 else 0) + Occupied(slots[1..])
  }

  lemma {:induction false} OccupiedUpdate(slots: seq<int>, i: nat, v: int)
    requires i < |slots|
    ensures Occupied(slots[i := v])
         == Occupied(slots) - (if slots[i] != EMPTY then 1 else 0) + if v != EMPTY then 1 else 0
  {
    if i == 0 {
      assert slots[0 := v][1..] == slots[1..];
    } else {
      assert slots[i := v][1..] == slots[1..][i - 1 := v];
      OccupiedUpdate(slots[1..], i - 1, v);
    }
  }

  lemma {:induction false} OccupiedNone(n: nat)
    ensures Occupied(seq(n, _ => EMPTY)) == 0
  {
    if n > 0 {
      assert seq(n, _ => EMPTY)[1..] == seq(n - 1, _ => EMPTY);
      OccupiedNone(n - 1);
    }
  }

  /** Closed connections already counted off whose slot is not empty yet. */
  function Leaving(s: State): nat {
    if s.receiver.Free? then 1 else 0
  }

  /** Connections already in a slot and not counted yet. */
  function Entering(s: State): nat {
    if s.acceptor.Count? then 1 else 0
  }

  predicate Counted(s: State) {
    Occupied(s.slots) == s.connNum + Leaving(s) + Entering(s)
  }

  lemma {:induction false} CountAcceptor(s: State)
    requires Inv(s) && Counted(s)
    ensures Counted(AcceptorNext(s))
  {
    if s.acceptor.Store? {
      OccupiedUpdate(s.slots, s.acceptor.i, s.acceptor.fd);
    }
  }

  lemma {:induction false} CountReceiver(s: State, closed: bool)
    requires Inv(s) && Counted(s)
    ensures Counted(ReceiverNext(s, closed))
  {
    if s.receiver.Free? {
      OccupiedUpdate(s.slots, s.receiver.i, EMPTY);
    }
  }

  lemma {:induction false} CountStep(s: State, step: Step, preempts: bool)
    requires Inv(s) && Counted(s)
    ensures Counted(Next(s, step, preempts))
  {
    match step
    case AcceptorStep => CountAcceptor(s);
    case ReceiverStep(closed) => CountReceiver(s, closed);
    case _ =>
  }

  lemma {:induction false} CountRun(steps: seq<Step>, preempts: bool)
    ensures Counted(Run(steps, preempts))
  {
    if steps == [] {
      OccupiedNone(BACKLOG);
    } else {
      CountRun(steps[..|steps| - 1], preempts);
      RunInv(steps[..|steps| - 1], preempts);
      CountStep(Run(steps[..|steps| - 1], preempts), steps[|steps| - 1], preempts);
    }
  }

  /** However the tasks interleave, the count is off by exactly the connections
      that are just leaving and just entering. */
  lemma {:induction false} Counting(s: State, preempts: bool)
    requires Reachable(s, preempts)
    ensures Occupied(s.slots) == s.connNum + Leaving(s) + Entering(s)
  {
    var steps :| Run(steps, preempts) == s;
    CountRun(steps, preempts);
  }

  // ----- With the accept task preempting -----

  /** The receive task stands still while the accept task is busy. */
  ghost predicate Busy(s: State) {
    match s.acceptor
    case Search(fd, i) => s.connNum < BACKLOG && i <= |s.slots| && forall j | 0 <= j < i :: s.slots[j] != EMPTY
    case Store(fd, i) => s.connNum < BACKLOG
    case Count(i) => i < |s.slots| && s.slots[i] != EMPTY && !Closing(s, i)
    case _ => true
  }

  lemma {:induction false} BusyStep(s: State, step: Step)
    requires Inv(s) && Busy(s)
    ensures Busy(Next(s, step, true))
  {
  }

  lemma {:induction false} BusyRun(steps: seq<Step>)
    ensures Busy(Run(steps, true))
  {
    if steps != [] {
      BusyRun(steps[..|steps| - 1]);
      RunInv(steps[..|steps| - 1], true);
      BusyStep(Run(steps[..|steps| - 1], true), steps[|steps| - 1]);
    }
  }

  lemma {:induction false} OccupiedAtLeast(slots: seq<int>, i: nat, j: nat)
    requires i < |slots| && j < |slots| && slots[i] != EMPTY && slots[j] != EMPTY
    ensures Occupied(slots) >= if i == j then 1 else 2
  {
    OccupiedUpdate(slots, i, EMPTY);
    if i != j {
      OccupiedUpdate(slots[i := EMPTY], j, EMPTY);
    }
  }

  /** The count is never negative and never more than the slots in use, and it is
      the number of slots in use whenever nobody is just leaving or entering. */
  lemma {:induction false} CountBounds(s: State)
    requires Reachable(s, true)
    ensures 0 <= s.connNum <= Occupied(s.slots) <= 7
    ensures s.connNum == Occupied(s.slots) <==> !s.receiver.Free? && !s.acceptor.Count?
  {
    var steps :| Run(steps, true) == s;
    BusyRun(steps);
    ReachableInv(s, true);
    Counting(s, true);
    if s.acceptor.Count? && s.receiver.Free? {
      OccupiedAtLeast(s.slots, s.acceptor.i, s.receiver.i);
    } else if s.acceptor.Count? {
      OccupiedAtLeast(s.slots, s.acceptor.i, s.acceptor.i);
    } else if s.receiver.Free? {
      OccupiedAtLeast(s.slots, s.receiver.i, s.receiver.i);
    }
  }

  /** Without the priority the count can only fall short by one, and only while
      a connection is entering. */
  lemma {:induction false} CountShortfall(s: State)
    requires Reachable(s, false)
    ensures -1 <= s.connNum <= Occupied(s.slots)
    ensures s.connNum < 0 <==> s.acceptor.Count? && Occupied(s.slots) == Leaving(s)
  {
    ReachableInv(s, false);
    Counting(s, false);
    if s.receiver.Free? {
      OccupiedAtLeast(s.slots, s.receiver.i, s.receiver.i);
    }
  }

  // ----- What becomes of an accepted descriptor -----

  /** How many steps the accept task has left at most. */
  function Left(a: Acceptor): nat {
    match a
    case Got(_) => BACKLOG + 4
    case Search(_, i) => if i < BACKLOG then BACKLOG - i + 3 else 3
    case Store(_, _) => 2
    case Wait => 0
    case _ => 1
  }

  /** The accept task runs until it waits again. */
  function Settle(s: State): (t: State)
    requires |s.slots| == BACKLOG && (s.acceptor.Store? ==> s.acceptor.i < BACKLOG)
    decreases Left(s.acceptor)
  {
    if s.acceptor.Wait? then s else Settle(AcceptorNext(s))
  }

  lemma {:induction false} SettleSearch(s: State)
    requires |s.slots| == BACKLOG && s.acceptor.Search? && s.acceptor.i <= BACKLOG
    requires forall j | 0 <= j < s.acceptor.i :: s.slots[j] != EMPTY
    ensures var t := Settle(s);
            if Occupied(s.slots) == BACKLOG
            then t == s.(acceptor := Wait)
            else exists j: nat :: j < BACKLOG && s.slots[j] == EMPTY
                   && t == s.(slots := s.slots[j := s.acceptor.fd], connNum := s.connNum + 1, acceptor := Wait)
    decreases BACKLOG - s.acceptor.i
  {
    var i := s.acceptor.i;
    if i == BACKLOG {
      FullWhen(s.slots);
    } else if s.slots[i] == EMPTY {
      OccupiedUpdate(s.slots, i, 0);
      var t := AcceptorNext(AcceptorNext(s));
      assert t.acceptor == Count(i) && Settle(t) == AcceptorNext(t);
      assert Settle(s) == Settle(AcceptorNext(s)) == Settle(t);
    } else {
      SettleSearch(AcceptorNext(s));
    }
  }

  lemma {:induction false} FullWhen(slots: seq<int>)
    ensures Occupied(slots) == |slots| <==> forall j | 0 <= j < |slots| :: slots[j] != EMPTY
  {
    if slots != [] {
      FullWhen(slots[1..]);
      assert forall j | 0 < j < |slots| :: slots[j] == slots[1..][j - 1];
      assert forall j | 0 <= j < |slots| - 1 :: slots[1..][j] == slots[j + 1];
    }
  }

  /** With the priority, a descriptor just accepted is refused when the count
      says the table is full; it is stored otherwise, except that it is left open
      and in no slot exactly when the last free place is being vacated: one slot
      counted off but not empty yet, all others taken. */
  lemma {:induction false} AcceptedIsStored(s: State)
    requires Reachable(s, true) && s.acceptor.Got?
    ensures var t := Settle(s);
            var fd := s.acceptor.fd;
            if s.connNum >= BACKLOG then t.slots == s.slots && fd !in t.kernel
            else if s.receiver.Free? && s.connNum == BACKLOG - 1 then t.slots == s.slots && fd in t.kernel
            else fd in t.kernel && exists j: nat ::
                   j < BACKLOG && s.slots[j] == EMPTY && t.slots == s.slots[j := fd] && t.connNum == s.connNum + 1
  {
    ReachableInv(s, true);
    Counting(s, true);
    CountBounds(s);
    var t := AcceptorNext(s);
    if s.connNum < BACKLOG {
      SettleSearch(t);
    } else {
      assert Settle(t) == AcceptorNext(t);
    }
  }

  // ----- Two reachable states -----

  lemma {:induction false} Start(preempts: bool)
    ensures Reachable(Init(), preempts)
  {
    assert Run([], preempts) == Init();
  }

  lemma {:induction false} Do(s: State, step: Step, preempts: bool) returns (t: State)
    requires Reachable(s, preempts)
    ensures t == Next(s, step, preempts) && Reachable(t, preempts)
  {
    var steps :| Run(steps, preempts) == s;
    var more := steps + [step];
    assert more[..|steps|] == steps;
    t := Next(s, step, preempts);
    assert Run(more, preempts) == t;
  }

  lemma {:induction false} DoAcceptor(s: State, preempts: bool) returns (t: State)
    requires Reachable(s, preempts) && |s.slots| == BACKLOG
    ensures t == AcceptorNext(s) && Reachable(t, preempts)
  {
    t := Do(s, AcceptorStep, preempts);
  }

  lemma {:induction false} DoReceiver(s: State, closed: bool, preempts: bool) returns (t: State)
    requires Reachable(s, preempts) && |s.slots| == BACKLOG && (preempts ==> s.acceptor == Wait)
    ensures t == ReceiverNext(s, closed) && Reachable(t, preempts)
  {
    t := Do(s, ReceiverStep(closed), preempts);
  }

  lemma {:induction false} SearchOn(s: State, n: nat, preempts: bool) returns (t: State)
    requires Reachable(s, preempts) && s.acceptor.Search? && s.acceptor.i <= n <= BACKLOG == |s.slots|
    requires forall j | s.acceptor.i <= j < n :: s.slots[j] != EMPTY
    ensures Reachable(t, preempts) && t == s.(acceptor := Search(s.acceptor.fd, n))
    decreases n - s.acceptor.i
  {
    t := s;
    if s.acceptor.i < n {
      t := DoAcceptor(s, preempts);
      t := SearchOn(t, n, preempts);
    }
  }

  /** Accepts fd and gets ready to search the table. */
  lemma {:induction false} TakeIn(s: State, fd: int, preempts: bool) returns (t: State)
    requires Reachable(s, preempts) && s.acceptor == Wait && fd > 0 && fd !in s.kernel && s.connNum < BACKLOG
    requires |s.slots| == BACKLOG
    ensures Reachable(t, preempts)
    ensures t == s.(kernel := s.kernel[fd := s.nextConn], nextConn := s.nextConn + 1, acceptor := Search(fd, 0))
  {
    t := Do(s, Accepted(fd), preempts);
    t := DoAcceptor(t, preempts);
  }

  /** Fills the slot the search has come to. */
  lemma {:induction false} PutIn(s: State, preempts: bool) returns (t: State)
    requires Reachable(s, preempts) && s.acceptor.Search? && s.acceptor.i < BACKLOG == |s.slots|
    requires s.slots[s.acceptor.i] == EMPTY
    ensures Reachable(t, preempts)
    ensures t == s.(slots := s.slots[s.acceptor.i := s.acceptor.fd], acceptor := Count(s.acceptor.i))
  {
    t := DoAcceptor(s, preempts);
    t := DoAcceptor(t, preempts);
  }

  /** Accepts fd and stores it in slot n, the first empty one; does not count it yet. */
  lemma {:induction false} Enter(s: State, fd: int, n: nat, preempts: bool) returns (t: State)
    requires Reachable(s, preempts) && s.acceptor == Wait && fd > 0 && fd !in s.kernel && s.connNum < BACKLOG
    requires n < BACKLOG == |s.slots| && s.slots[n] == EMPTY && forall j | 0 <= j < n :: s.slots[j] != EMPTY
    ensures Reachable(t, preempts)
    ensures t == s.(slots := s.slots[n := fd], kernel := s.kernel[fd := s.nextConn], nextConn := s.nextConn + 1,
                    acceptor := Count(n))
  {
    t := TakeIn(s, fd, preempts);
    t := SearchOn(t, n, preempts);
    t := PutIn(t, preempts);
  }

  /** Collects every taken slot for select. */
  lemma {:induction false} CollectAll(s: State, preempts: bool) returns (t: State)
    requires Reachable(s, preempts) && s.receiver.Collect? && s.receiver.i <= BACKLOG == |s.slots|
    requires preempts ==> s.acceptor == Wait
    ensures Reachable(t, preempts) && t.receiver.Select? && t == s.(receiver := t.receiver)
    ensures s.receiver.watched <= t.receiver.watched
    ensures forall j | s.receiver.i <= j < BACKLOG && s.slots[j] != EMPTY :: s.slots[j] in t.receiver.watched
    decreases BACKLOG - s.receiver.i
  {
    t := DoReceiver(s, true, preempts);
    if s.receiver.i < BACKLOG {
      t := CollectAll(t, preempts);
    }
  }

  /** Finds the connection in slot i closed. */
  lemma {:induction false} FindClosed(s: State, i: nat, preempts: bool) returns (t: State)
    requires Reachable(s, preempts) && s.receiver == Scan(i) && (preempts ==> s.acceptor == Wait)
    requires i < BACKLOG == |s.slots| && s.slots[i] != EMPTY && s.slots[i] in s.ready
    ensures Reachable(t, preempts) && t == s.(receiver := CloseFd(i))
  {
    t := DoReceiver(s, true, preempts);
    assert t == s.(receiver := Test(i));
    t := DoReceiver(t, true, preempts);
    assert t == s.(receiver := Receive(i));
    t := DoReceiver(t, true, preempts);
  }

  /** Closes the descriptor in slot i and takes it out of the ready set. */
  lemma {:induction false} CloseAndClear(s: State, i: nat, preempts: bool) returns (t: State)
    requires Reachable(s, preempts) && s.receiver == CloseFd(i) && (preempts ==> s.acceptor == Wait)
    requires i < BACKLOG == |s.slots|
    ensures Reachable(t, preempts)
    ensures t == s.(kernel := s.kernel - {s.slots[i]}, ready := s.ready - {s.slots[i]}, receiver := Decrement(i))
  {
    t := DoReceiver(s, true, preempts);
    t := DoReceiver(t, true, preempts);
  }

  /** Finds the connection in slot i closed, and counts it off. */
  lemma {:induction false} Leave(s: State, i: nat, preempts: bool) returns (t: State)
    requires Reachable(s, preempts) && s.receiver == Scan(i) && (preempts ==> s.acceptor == Wait)
    requires i < BACKLOG == |s.slots| && s.slots[i] != EMPTY && s.slots[i] in s.ready
    ensures Reachable(t, preempts)
    ensures t == s.(kernel := s.kernel - {s.slots[i]}, ready := s.ready - {s.slots[i]}, connNum := s.connNum - 1,
                    receiver := Free(i))
  {
    t := FindClosed(s, i, preempts);
    t := CloseAndClear(t, i, preempts);
    t := DoReceiver(t, true, preempts);
  }

  /** Two connections in the table, one of them counted. */
  lemma {:induction false} OneAndAHalf() returns (s: State)
    ensures Reachable(s, false) && s.receiver == Idle && s.connNum == 1 && |s.slots| == BACKLOG
    ensures s.slots[0] == 1 && s.slots[1] == 2 && 1 in s.kernel && 2 in s.kernel
  {
    Start(false);
    s := Enter(Init(), 1, 0, false);
    s := DoAcceptor(s, false);
    s := Enter(s, 2, 1, false);
  }

  /** Both are reported. */
  lemma {:induction false} BothReported() returns (s: State)
    ensures Reachable(s, false) && s.receiver == Scan(0) && s.connNum == 1 && |s.slots| == BACKLOG
    ensures s.slots[0] == 1 && s.slots[1] == 2 && s.ready == {1, 2}
  {
    s := OneAndAHalf();
    s := Do(s, StartPass, false);
    s := CollectAll(s, false);
    assert s.slots[0] == 1 && s.slots[1] == 2;
    s := Do(s, SelectReports({1, 2}), false);
  }

  /** Without the priority the count does become negative: a connection leaves
      before the accept task has counted it. */
  lemma {:induction false} NegativeCount() returns (s: State)
    ensures Reachable(s, false) && s.connNum == -1
  {
    s := BothReported();
    s := Leave(s, 0, false);
    s := DoReceiver(s, true, false);
    s := Leave(s, 1, false);
  }

  /** Descriptors 1 to n live, in the first n slots and counted; both tasks wait. */
  ghost predicate Filled(s: State, n: nat) {
    && s.acceptor == Wait && s.receiver == Idle && s.connNum == n && |s.slots| == BACKLOG
    && (forall j | 0 <= j < BACKLOG :: s.slots[j] == if j < n then j + 1 else EMPTY)
    && forall fd :: fd in s.kernel <==> 1 <= fd <= n
  }

  lemma {:induction false} FillOne(s: State, n: nat)
    requires n < BACKLOG && Filled(s, n)
    ensures Filled(s.(slots := s.slots[n := n + 1], kernel := s.kernel[n + 1 := s.nextConn],
                      nextConn := s.nextConn + 1, connNum := n + 1), n + 1)
  {
  }

  lemma {:induction false} Fill(n: nat) returns (s: State)
    requires n <= BACKLOG
    ensures Reachable(s, true) && Filled(s, n)
  {
    Start(true);
    s := Init();
    if n > 0 {
      var u := Fill(n - 1);
      FillOne(u, n - 1);
      assert n !in u.kernel && u.slots[n - 1] == EMPTY;
      s := Enter(u, n, n - 1, true);
      s := DoAcceptor(s, true);
    }
  }

  /** As many as seven connections can be in the table, all counted. */
  lemma {:induction false} SevenHeld() returns (s: State)
    ensures Reachable(s, true) && s.connNum == |s.slots| == 7 && forall j | 0 <= j < 7 :: s.slots[j] in s.kernel
  {
    s := Fill(BACKLOG);
  }

  /** An accepted descriptor can be left open and in no slot, even with the priority. */
  lemma {:induction false} Stranded() returns (s: State)
    ensures Reachable(s, true) && s.acceptor.Got?
    ensures Settle(s).slots == s.slots && s.acceptor.fd in Settle(s).kernel && s.acceptor.fd !in s.slots
  {
    s := Fill(BACKLOG);
    s := Do(s, StartPass, true);
    s := CollectAll(s, true);
    assert s.slots[0] == 1;
    s := Do(s, SelectReports({1}), true);
    s := Leave(s, 0, true);
    s := Do(s, Accepted(BACKLOG + 1), true);
    AcceptedIsStored(s);
  }
}
