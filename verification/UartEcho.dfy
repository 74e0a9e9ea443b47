/**
 The UART demo: the receive interrupt counts bytes and wakes the echo task, at
 most three messages ahead. Every access of the task to a shared counter is a
 step, the load and the store of a decrement being two; the interrupt may come
 between any two steps and runs to its end.
 */
module UartEcho {
  import opened Bits
  import opened Bytes

  const RX_BUF_SIZE: nat := 1024
  const MAX_MESSAGES := 3

  /** Where the task is, with its local variables. */
  datatype Task =
    | Waiting
    | Snapshot                                              // has a message; about to read rx_data_len
    | Head(rxLen: nat)                                      // at the test of the loop
    | Got(rxLen: nat, len: nat, chunk: seq<byte>)           // tls_uart_read has returned the chunk
    | Loaded(rxLen: nat, len: nat, chunk: seq<byte>, reg: int)   // has loaded rx_data_len
    | Out(rxLen: nat, len: nat, chunk: seq<byte>)           // about to write the chunk
    | Test                                                  // about to test rx_msg_num
    | Down                                                  // about to decrement it
    | Lower(reg: int)                                       // has loaded it

  /** The counters the interrupt and the task share, the queue, the driver's
      buffer, all bytes received and echoed, and what the two counters missed
      because an interrupt fell between a load and its store. */
  datatype State = State(
    task: Task, queue: nat, msgNum: int, dataLen: int, fifo: seq<byte>,
    received: seq<byte>, echoed: seq<byte>, lostBytes: nat, lostMsgs: nat)

  datatype Step = Interrupt(bytes: seq<byte>) | TaskStep

  function Init(): State {
    State(Waiting, 0, 0, 0, [], [], [], 0, 0)
  }

  /** The driver stores the bytes and calls demo_uart_rx. */
  function Interrupted(s: State, bytes: seq<byte>): State {
    var sends := s.msgNum < MAX_MESSAGES;
    s.(fifo := s.fifo + bytes, received := s.received + bytes, dataLen := s.dataLen + |bytes|,
       msgNum := if sends then s.msgNum + 1 else s.msgNum, queue := if sends then s.queue + 1 else s.queue,
       lostBytes := if s.task.Loaded? then s.lostBytes + |bytes| else s.lostBytes,
       lostMsgs := if s.task.Lower? && sends then s.lostMsgs + 1 else s.lostMsgs)
  }

  function TaskNext(s: State): State {
    match s.task
    case Waiting =>
      if s.queue == 0 then s else s.(queue := s.queue - 1, task := Snapshot)
    case Snapshot =>
      s.(task := Head(if s.dataLen > 0 then s.dataLen else 0))
    case Head(rxLen) =>
      var len := Min(rxLen, RX_BUF_SIZE);
      var ret := Min(len, |s.fifo|);
      if ret == 0 then s.(task := Test)
      else s.(fifo := s.fifo[ret..], task := Got(rxLen, len, s.fifo[..ret]))
    case Got(rxLen, len, chunk) =>
      s.(task := Loaded(if rxLen > |chunk| then rxLen - |chunk| else 0, len, chunk, s.dataLen))
    case Loaded(rxLen, len, chunk, reg) =>
      s.(dataLen := reg - |chunk|, task := Out(rxLen, len, chunk))
    case Out(rxLen, len, chunk) =>
      s.(echoed := s.echoed + chunk + Fill(0, if len > |chunk| then len - |chunk| else 0), task := Head(rxLen))
    case Test =>
      s.(task := if s.msgNum > 0 then Down else Waiting,
         lostMsgs := if s.msgNum > 0 || s.lostMsgs == 0 then s.lostMsgs else s.lostMsgs - 1)
    case Down =>
      s.(task := Lower(s.msgNum))
    case Lower(reg) =>
      s.(msgNum := reg - 1, task := Waiting)
  }

  function Next(s: State, step: Step): State {
    match step
    case Interrupt(bytes) => Interrupted(s, bytes)
    case TaskStep => TaskNext(s)
  }

  function Replay(s: State, steps: seq<Step>): State {
    if steps == [] then s else Next(Replay(s, steps[..|steps| - 1]), steps[|steps| - 1])
  }

  lemma {:induction false} ReplayOne(s: State, steps: seq<Step>, step: Step)
    ensures Replay(s, steps + [step]) == Next(Replay(s, steps), step)
  {
    assert (steps + [step])[..|steps|] == steps;
  }

  ghost predicate Reachable(s: State) {
    exists steps :: Replay(Init(), steps) == s
  }

  lemma {:induction false} Do(s: State, step: Step)
    requires Reachable(s)
    ensures Reachable(Next(s, step))
  {
    var steps :| Replay(Init(), steps) == s;
    ReplayOne(Init(), steps, step);
  }

  /** The bytes the task has read and not yet written. */
  function InHand(t: Task): (chunk: seq<byte>) {
    if t.Got? || t.Loaded? || t.Out? then t.chunk else []
  }

  /** No byte is lost, duplicated or padded on its way through. */
  predicate Conserved(s: State) {
    && s.received == s.echoed + InHand(s.task) + s.fifo
    && (s.task.Got? || s.task.Loaded? || s.task.Out? ==> |s.task.chunk| == s.task.len <= RX_BUF_SIZE)
  }

  /** What rx_data_len will be when the store under way is done. */
  function Accounted(s: State): int {
    match s.task
    case Got(_, _, chunk) => s.dataLen - |chunk|
    case Loaded(_, _, chunk, reg) => reg - |chunk|
    case _ => s.dataLen
  }

  /** The bytes the task will still take before it looks at rx_data_len again. */
  function ToCome(s: State): nat {
    match s.task
    case Head(rxLen) => rxLen
    case Got(rxLen, _, chunk) => if rxLen > |chunk| then rxLen - |chunk| else 0
    case Loaded(rxLen, _, _, _) => rxLen
    case Out(rxLen, _, _) => rxLen
    case _ => 0
  }

  /** The count of unread bytes is short of what was missed, and any byte the
      task does not know of has a message in the queue. */
  predicate Notified(s: State) {
    && Accounted(s) == |s.fifo| - s.lostBytes
    && (s.task.Got? ==> |s.task.chunk| <= s.task.rxLen)
    && ToCome(s) <= Accounted(s)
    && (!s.task.Snapshot? && Accounted(s) > ToCome(s) ==> s.queue >= 1)
  }

  predicate InProgress(t: Task) {
    !t.Waiting?
  }

  predicate Counted(s: State) {
    && 0 <= s.msgNum <= MAX_MESSAGES
    && s.msgNum <= s.queue + (if InProgress(s.task) then 1 else 0)
    && (s.task.Down? ==> s.msgNum >= 1) && (s.task.Lower? ==> 1 <= s.task.reg <= s.msgNum)
    && (if s.task.Lower? then s.task.reg else s.msgNum) + s.lostMsgs == s.queue + if InProgress(s.task) then 1 else 0
  }

  predicate Inv(s: State) {
    Conserved(s) && Notified(s) && Counted(s)
  }

  lemma {:induction false} InterruptInv(s: State, bytes: seq<byte>)
    requires Inv(s)
    ensures Inv(Interrupted(s, bytes))
  {
    assert s.echoed + InHand(s.task) + s.fifo + bytes == s.echoed + InHand(s.task) + (s.fifo + bytes);
  }

  lemma {:induction false} Parted(done: seq<byte>, rest: seq<byte>, n: nat)
    requires n <= |rest|
    ensures done + [] + rest == done + rest[..n] + rest[n..]
  {
    assert rest == rest[..n] + rest[n..];
  }

  lemma {:induction false} HeadInv(s: State)
    requires Inv(s) && s.task.Head?
    ensures Inv(TaskNext(s))
  {
    var len := Min(s.task.rxLen, RX_BUF_SIZE);
    assert len <= |s.fifo|;
    Parted(s.echoed, s.fifo, len);
  }

  lemma {:induction false} OutInv(s: State)
    requires Inv(s) && s.task.Out?
    ensures Inv(TaskNext(s))
  {
    assert s.echoed + s.task.chunk + Fill(0, 0) + [] + s.fifo == s.echoed + s.task.chunk + s.fifo;
  }

  lemma {:induction false} TaskInv(s: State)
    requires Inv(s)
    ensures Inv(TaskNext(s))
  {
    match s.task
    case Head(_) => HeadInv(s);
    case Out(_, _, _) => OutInv(s);
    case _ =>
  }

  lemma {:induction false} ReplayInv(s: State, steps: seq<Step>)
    requires Inv(s)
    ensures Inv(Replay(s, steps))
  {
    if steps != [] {
      var t := Replay(s, steps[..|steps| - 1]);
      ReplayInv(s, steps[..|steps| - 1]);
      match steps[|steps| - 1]
      case Interrupt(bytes) => InterruptInv(t, bytes);
      case TaskStep => TaskInv(t);
    }
  }

  lemma {:induction false} ReachableInv(s: State)
    requires Reachable(s)
    ensures Inv(s)
  {
    var steps :| Replay(Init(), steps) == s;
    ReplayInv(Init(), steps);
  }

  /** What was echoed is at all times the beginning of what was received. */
  lemma {:induction false} EchoIsPrefix(s: State)
    requires Reachable(s)
    ensures s.echoed <= s.received
  {
    ReachableInv(s);
    assert s.received == s.echoed + (InHand(s.task) + s.fifo);
  }

  /** The task never asks for more than there is, so no zero of its buffer is echoed. */
  lemma {:induction false} NeverPads(s: State)
    requires Reachable(s)
    ensures s.task.Head? ==> s.task.rxLen <= |s.fifo|
    ensures s.task.Out? ==> |s.task.chunk| == s.task.len <= 1024
  {
    ReachableInv(s);
  }

  /** A round of the loop reads all that is left of what the task knows of, at most 1024 bytes of it, oldest first. */
  lemma {:induction false} RoundReads(s: State)
    requires Reachable(s) && s.task.Head? && s.task.rxLen > 0
    ensures var t, n := TaskNext(s), if s.task.rxLen < 1024 then s.task.rxLen else 1024;
      t.task.Got? && |t.task.chunk| == n && s.fifo == t.task.chunk + t.fifo
  {
    ReachableInv(s);
  }

  /** As long as the task does not run, the first three interrupts each send a message, and no other does. */
  lemma {:induction false} ThreeQueued(steps: seq<Step>)
    requires forall i | 0 <= i < |steps| :: steps[i].Interrupt?
    ensures var s := Replay(Init(), steps);
      s.task.Waiting? && s.queue == s.msgNum == if |steps| < 3 then |steps| else 3
  {
    if steps != [] {
      ThreeQueued(steps[..|steps| - 1]);
    }
  }

  /** Between rounds of the loop rx_data_len is received minus echoed, less what a torn decrement missed. */
  lemma {:induction false} DataLenIs(s: State)
    requires Reachable(s) && (s.task.Head? || s.task.Waiting?)
    ensures s.dataLen == |s.received| - |s.echoed| - s.lostBytes
  {
    ReachableInv(s);
  }

  /**
   When the task waits at an empty queue, what it has not echoed is exactly as
   much as came in between a load and a store of rx_data_len: all is echoed if
   and only if no byte did. The cap of three messages never strands a byte.
   */
  lemma {:induction false} IdleMeansEchoed(s: State)
    requires Reachable(s) && s.task.Waiting? && s.queue == 0
    ensures |s.received| == |s.echoed| + s.lostBytes
    ensures s.echoed == s.received <==> s.lostBytes == 0
  {
    ReachableInv(s);
  }

  /** rx_msg_num counts the messages queued and in progress, at most three, unless a decrement was torn. */
  lemma {:induction false} MessageCount(s: State)
    requires Reachable(s)
    ensures 0 <= s.msgNum <= 3
    ensures s.lostMsgs == 0 ==> s.msgNum == s.queue + if InProgress(s.task) then 1 else 0
    ensures !s.task.Lower? && s.lostMsgs > 0 ==> s.msgNum < s.queue + if InProgress(s.task) then 1 else 0
  {
    ReachableInv(s);
  }

  /** How far the task is from the end of the message it works on. */
  function Phase(t: Task): nat {
    match t
    case Waiting => 0
    case Lower(_) => 1
    case Down => 2
    case Test => 3
    case Snapshot => 5
    case _ => 4
  }

  function Place(t: Task): nat {
    match t
    case Got(_, _, _) => 3
    case Loaded(_, _, _, _) => 2
    case Out(_, _, _) => 1
    case _ => 0
  }

  /** Where the task gets when no more interrupts come. */
  ghost function Settled(s: State): (t: State)
    requires Inv(s)
    ensures Inv(t) && t.task.Waiting? && t.queue == 0
    ensures t.received == s.received && t.lostBytes == s.lostBytes
    decreases s.queue, Phase(s.task), ToCome(s), Place(s.task)
  {
    if s.task.Waiting? && s.queue == 0 then s else
      TaskInv(s);
      Settled(TaskNext(s))
  }

  /** Left alone, the task comes to rest, and has then echoed every byte that was not missed. */
  lemma {:induction false} Settles(s: State)
    requires Reachable(s)
    ensures Inv(s) && Reachable(Settled(s)) && Settled(s).task.Waiting? && Settled(s).queue == 0
    ensures Settled(s).received == s.received
    ensures Settled(s).echoed == s.received <==> s.lostBytes == 0
    decreases s.queue, Phase(s.task), ToCome(s), Place(s.task)
  {
    ReachableInv(s);
    if s.task.Waiting? && s.queue == 0 {
      IdleMeansEchoed(s);
    } else {
      Do(s, TaskStep);
      TaskInv(s);
      Settles(TaskNext(s));
    }
  }

  /** Bytes that arrive inside the decrement of rx_data_len leave that many unread for good. */
  lemma {:induction false} TornDecrement(s: State, bytes: seq<byte>)
    requires Reachable(s) && s.task.Loaded? && bytes != []
    ensures var t := Interrupted(s, bytes);
      Inv(t) && |Settled(t).echoed| + s.lostBytes + |bytes| == |t.received|
  {
    var t := Interrupted(s, bytes);
    Do(s, Interrupt(bytes));
    Settles(t);
    IdleMeansEchoed(Settled(t));
  }

  /** Such a state is reached by the first byte ever received. */
  lemma {:induction false} TornIsReached() returns (s: State)
    ensures Reachable(s) && s.task.Loaded? && s.received == [65]
  {
    assert Replay(Init(), []) == Init();
    Do(Init(), Interrupt([65]));
    s := Next(Init(), Interrupt([65]));
    Do(s, TaskStep);
    s := TaskNext(s);
    Do(s, TaskStep);
    s := TaskNext(s);
    Do(s, TaskStep);
    s := TaskNext(s);
    Do(s, TaskStep);
    s := TaskNext(s);
  }

  // ----- One message -----

  /** The run starts with the task taking a message, and the task does not wait again before its end. */
  ghost predicate Unbroken(start: State, steps: seq<Step>) {
    steps == []
    || (var before := steps[..|steps| - 1];
        Unbroken(start, before)
        && if before == [] then steps == [TaskStep] else !Replay(start, before).task.Waiting?)
  }

  /** What rx_data_len was when the task last looked at it, or 0 if it was less. */
  ghost function Seen(start: State, steps: seq<Step>): nat {
    if steps == [] then 0
    else
      var before := steps[..|steps| - 1];
      var s := Replay(start, before);
      if steps[|steps| - 1].TaskStep? && s.task.Snapshot? then if s.dataLen > 0 then s.dataLen else 0
      else Seen(start, before)
  }

  /** How many of the interrupts sent a message. */
  ghost function Sent(start: State, steps: seq<Step>): nat {
    if steps == [] then 0
    else
      var before := steps[..|steps| - 1];
      Sent(start, before) + if steps[|steps| - 1].Interrupt? && Replay(start, before).msgNum < 3 then 1 else 0
  }

  lemma {:induction false} UnbrokenOne(start: State, before: seq<Step>, step: Step)
    requires Unbroken(start, before)
    requires if before == [] then step.TaskStep? else !Replay(start, before).task.Waiting?
    ensures Unbroken(start, before + [step])
    ensures var s := Replay(start, before);
      Seen(start, before + [step])
      == if !step.TaskStep? || !s.task.Snapshot? then Seen(start, before) else if s.dataLen > 0 then s.dataLen else 0
  {
    assert (before + [step])[..|before|] == before;
  }

  /** What is echoed, in hand, and still to be read of what the task has seen. */
  function Due(s: State): nat {
    |s.echoed| + |InHand(s.task)| + ToCome(s)
  }

  lemma {:induction false} DueKept(s: State)
    requires Inv(s) && !s.task.Snapshot?
    ensures Due(TaskNext(s)) == Due(s)
  {
  }

  lemma {:induction false} DueNext(s: State, step: Step)
    requires Inv(s)
    ensures var t := Next(s, step);
      Due(t) == if step.TaskStep? && s.task.Snapshot? then |s.echoed| + (if s.dataLen > 0 then s.dataLen else 0)
                else Due(s)
    ensures Next(s, step).task.Snapshot? ==> s.task.Waiting? || s.task.Snapshot?
    ensures s.task.Snapshot? ==> Due(s) == |s.echoed|
  {
    if step.TaskStep? && !s.task.Snapshot? {
      DueKept(s);
    }
  }

  lemma {:induction false} QueueNext(s: State, step: Step)
    requires !s.task.Waiting?
    ensures Next(s, step).queue == s.queue + if step.Interrupt? && s.msgNum < 3 then 1 else 0
  {
  }

  /** From the wait at a message to the next wait the task takes this one message. */
  lemma {:induction false} TurnTakes(start: State, steps: seq<Step>)
    requires start.task.Waiting? && start.queue > 0 && steps != [] && Unbroken(start, steps)
    ensures Replay(start, steps).queue == start.queue - 1 + Sent(start, steps)
  {
    var before := steps[..|steps| - 1];
    if before != [] {
      TurnTakes(start, before);
      QueueNext(Replay(start, before), steps[|steps| - 1]);
    } else {
      assert steps == [TaskStep] && Replay(start, []) == start;
    }
  }

  /** In that turn it echoes just as much as rx_data_len was when it looked, whatever arrives in between. */
  lemma {:induction false} TurnEchoes(start: State, steps: seq<Step>)
    requires Inv(start) && start.task.Waiting? && start.queue > 0
    requires steps != [] && Unbroken(start, steps)
    ensures Due(Replay(start, steps)) == |start.echoed| + Seen(start, steps)
    ensures Replay(start, steps).task.Snapshot? ==> Seen(start, steps) == 0
  {
    var before := steps[..|steps| - 1];
    if before != [] {
      TurnEchoes(start, before);
      ReplayInv(start, before);
      DueNext(Replay(start, before), steps[|steps| - 1]);
    }
  }

  /** Steps of the task alone do not change where it will come to rest. */
  lemma {:induction false} SettledSame(s: State, steps: seq<Step>)
    requires Inv(s) && forall i | 0 <= i < |steps| :: steps[i].TaskStep?
    ensures Inv(Replay(s, steps)) && Settled(Replay(s, steps)) == Settled(s)
  {
    if steps != [] {
      SettledSame(s, steps[..|steps| - 1]);
      TaskInv(Replay(s, steps[..|steps| - 1]));
    }
  }

  lemma {:induction false} NoneSent(start: State, steps: seq<Step>)
    requires forall i | 0 <= i < |steps| :: steps[i].TaskStep?
    ensures Sent(start, steps) == 0
  {
    if steps != [] {
      NoneSent(start, steps[..|steps| - 1]);
    }
  }
}
