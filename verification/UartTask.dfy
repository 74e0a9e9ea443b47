/**
 The code of the UART demo's interrupt callback and of the receive branch of
 its task, over their shared record. Each statement is one step of the machine
 in UartEcho; arrivals says which interrupts come before each of them.
 */
module UartTask {
  import opened Bits
  import opened Bytes
  import opened UartEcho

  /** The interrupts among the steps of a run, in order. */
  ghost function Interrupts(steps: seq<Step>): seq<seq<byte>> {
    if steps == [] then []
    else
      var before := Interrupts(steps[..|steps| - 1]);
      match steps[|steps| - 1]
      case Interrupt(bytes) => before + [bytes]
      case TaskStep => before
  }

  lemma {:induction false} OneMore(steps: seq<Step>, step: Step)
    ensures Interrupts(steps + [step]) == Interrupts(steps) + if step.Interrupt? then [step.bytes] else []
  {
    assert (steps + [step])[..|steps|] == steps;
  }

  /** All that arrives at the first k places. */
  ghost function Arrived(arrivals: nat -> seq<seq<byte>>, k: nat): seq<seq<byte>> {
    if k == 0 then [] else Arrived(arrivals, k - 1) + arrivals(k - 1)
  }

  /** The bytes counted when the task looks at rx_data_len, if there are any. */
  ghost function Announced(start: State, arrivals: nat -> seq<seq<byte>>): nat {
    var n := start.dataLen + |Concat(arrivals(0))|;
    if n > 0 then n else 0
  }

  lemma {:induction false} ConcatOne(chunks: seq<seq<byte>>, i: nat, before: seq<seq<byte>>)
    requires i < |chunks|
    ensures |Concat(chunks[..i + 1])| == |Concat(chunks[..i])| + |chunks[i]|
    ensures before + chunks[..i] + [chunks[i]] == before + chunks[..i + 1]
  {
    assert chunks[..i + 1] == chunks[..i] + [chunks[i]];
    ConcatAppend(chunks[..i], [chunks[i]]);
    assert Concat([chunks[i]]) == chunks[i] + Concat<byte>([]);
  }

  /** No interrupts in a run, none of its steps is one. */
  lemma {:induction false} TaskStepsOnly(steps: seq<Step>)
    requires Interrupts(steps) == []
    ensures forall i | 0 <= i < |steps| :: steps[i].TaskStep?
  {
    if steps != [] {
      TaskStepsOnly(steps[..|steps| - 1]);
    }
  }

  lemma {:induction false} NoneArrived(arrivals: nat -> seq<seq<byte>>, k: nat)
    requires forall i: nat :: arrivals(i) == []
    ensures Arrived(arrivals, k) == []
  {
    if k > 0 {
      NoneArrived(arrivals, k - 1);
    }
  }

  /** A run that starts at a message starts by taking it. */
  lemma {:induction false} FirstTakes(start: State, steps: seq<Step>)
    requires steps != [] && Unbroken(start, steps)
    ensures steps[0] == TaskStep
  {
    if |steps| > 1 {
      FirstTakes(start, steps[..|steps| - 1]);
    }
  }

  /** No more messages are sent than there are interrupts. */
  lemma {:induction false} SentAtMost(start: State, steps: seq<Step>)
    ensures Sent(start, steps) <= |Interrupts(steps)|
  {
    if steps != [] {
      SentAtMost(start, steps[..|steps| - 1]);
    }
  }

  lemma {:induction false} ZerosBehind(chunk: seq<byte>, len: nat, size: nat)
    requires |chunk| <= len <= size
    ensures Overlay(Fill(0, size), 0, chunk)[..len] == chunk + Fill(0, len - |chunk|)
  {
  }

  class DemoUart {
    var queue: nat
    var rxMsgNum: int
    var rxDataLen: int
    var fifo: seq<byte>
    const rxBuf: array<byte>
    ghost var task: Task
    ghost var received: seq<byte>
    ghost var lostBytes: nat
    ghost var lostMsgs: nat
    var echoed: seq<byte>

    ghost function View(): State
      reads this
    {
      State(task, queue, rxMsgNum, rxDataLen, fifo, received, echoed, lostBytes, lostMsgs)
    }

    constructor ()
      ensures View() == Init() && rxBuf.Length == RX_BUF_SIZE + 1 && fresh(rxBuf)
    {
      queue, rxMsgNum, rxDataLen, fifo, echoed := 0, 0, 0, [], [];
      rxBuf := new byte[RX_BUF_SIZE + 1];
      task, received, lostBytes, lostMsgs := Waiting, [], 0, 0;
    }

    /** The interrupt: the driver keeps the bytes, then calls demo_uart_rx. */
    method Rx(bytes: seq<byte>)
      modifies this
      ensures View() == Interrupted(old(View()), bytes)
    {
      fifo := fifo + bytes;
      received := received + bytes;
      if task.Loaded? {
        lostBytes := lostBytes + |bytes|;
      }
      rxDataLen := rxDataLen + |bytes|;
      if rxMsgNum < MAX_MESSAGES {
        rxMsgNum := rxMsgNum + 1;
        queue := queue + 1;
        if task.Lower? {
          lostMsgs := lostMsgs + 1;
        }
      }
    }

    /** The steps so far lead from start to the present state, their interrupts are those
        of the first k places, the task has not waited on the way, and it looked at
        rx_data_len behind the first of these places. */
    ghost predicate Ran(start: State, steps: seq<Step>, arrivals: nat -> seq<seq<byte>>, k: nat)
      reads this
    {
      && View() == Replay(start, steps) && Interrupts(steps) == Arrived(arrivals, k)
      && steps != [] && Unbroken(start, steps)
      && (task.Snapshot? || Seen(start, steps) == Announced(start, arrivals))
    }

    /** One interrupt while the task is at work. */
    method TakeInterrupt(bytes: seq<byte>, ghost start: State, ghost before: seq<Step>) returns (ghost steps: seq<Step>)
      requires View() == Replay(start, before) && before != [] && Unbroken(start, before) && !task.Waiting?
      modifies this
      ensures View() == Replay(start, steps) && steps != [] && Unbroken(start, steps)
      ensures Interrupts(steps) == Interrupts(before) + [bytes] && Seen(start, steps) == Seen(start, before)
      ensures task == old(task) && rxDataLen == old(rxDataLen) + |bytes|
    {
      ReplayOne(start, before, Interrupt(bytes));
      OneMore(before, Interrupt(bytes));
      UnbrokenOne(start, before, Interrupt(bytes));
      steps := before + [Interrupt(bytes)];
      Rx(bytes);
    }

    /** The interrupts that come at place k in the task. */
    method Await(arrivals: nat -> seq<seq<byte>>, k: nat, ghost start: State, ghost before: seq<Step>)
      returns (ghost steps: seq<Step>)
      requires Ran(start, before, arrivals, k) && !task.Waiting?
      modifies this
      ensures Ran(start, steps, arrivals, k + 1) && task == old(task)
      ensures rxDataLen == old(rxDataLen) + |Concat(arrivals(k))|
    {
      steps := before;
      var chunks, i := arrivals(k), 0;
      while i < |chunks|
        invariant i <= |chunks| && View() == Replay(start, steps) && task == old(task)
        invariant Interrupts(steps) == Arrived(arrivals, k) + chunks[..i]
        invariant steps != [] && Unbroken(start, steps) && Seen(start, steps) == Seen(start, before)
        invariant rxDataLen == old(rxDataLen) + |Concat(chunks[..i])|
      {
        ConcatOne(chunks, i, Arrived(arrivals, k));
        steps := TakeInterrupt(chunks[i], start, steps);
        i := i + 1;
      }
      assert chunks[..i] == chunks;
    }

    /** A statement of the task that took the machine one step on. */
    lemma {:induction false} Took(s: State, start: State, before: seq<Step>, arrivals: nat -> seq<seq<byte>>, k: nat)
      requires s == Replay(start, before) && Interrupts(before) == Arrived(arrivals, k) && View() == TaskNext(s)
      requires Unbroken(start, before) && if before == [] then task.Snapshot? else !s.task.Waiting?
      requires before == [] || if s.task.Snapshot? then s.dataLen == start.dataLen + |Concat(arrivals(0))|
                               else Seen(start, before) == Announced(start, arrivals)
      ensures Ran(start, before + [TaskStep], arrivals, k)
    {
      ReplayOne(start, before, TaskStep);
      OneMore(before, TaskStep);
      UnbrokenOne(start, before, TaskStep);
    }

    /** tls_uart_read: the first bytes of the buffer, as many as asked for and there. */
    method UartRead(len: nat) returns (ret: nat)
      requires len <= rxBuf.Length
      modifies this`fifo, rxBuf
      ensures ret == Min(len, |old(fifo)|) && fifo == old(fifo)[ret..]
      ensures rxBuf[..] == Overlay(old(rxBuf[..]), 0, old(fifo)[..ret])
    {
      ret := Min(len, |fifo|);
      forall i | 0 <= i < ret {
        rxBuf[i] := fifo[i];
      }
      fifo := fifo[ret..];
    }

    /** The read at the top of a round of the loop, into the cleared buffer. */
    method ReadChunk(rxLen: nat, arrivals: nat -> seq<seq<byte>>, ghost k: nat, ghost start: State,
                     ghost before: seq<Step>)
      returns (len: nat, ret: nat, ghost chunk: seq<byte>, ghost steps: seq<Step>)
      requires Ran(start, before, arrivals, k) && task == Head(rxLen) && rxLen > 0
      requires rxBuf.Length == RX_BUF_SIZE + 1
      modifies this`fifo, this`task, rxBuf
      ensures Ran(start, steps, arrivals, k) && len <= RX_BUF_SIZE && ret <= len && ret <= rxLen
      ensures |chunk| == ret && task == if ret == 0 then Test else Got(rxLen, len, chunk)
      ensures rxBuf[..][..len] == chunk + Fill(0, len - ret)
    {
      ghost var s := View();
      len := if rxLen > RX_BUF_SIZE then RX_BUF_SIZE else rxLen;
      forall i | 0 <= i < rxBuf.Length {
        rxBuf[i] := 0;
      }
      assert rxBuf[..] == Fill(0, RX_BUF_SIZE + 1);
      ret := UartRead(len);
      chunk := s.fifo[..ret];
      ZerosBehind(chunk, len, RX_BUF_SIZE + 1);
      task := if ret == 0 then Test else Got(rxLen, len, chunk);
      Took(s, start, before, arrivals, k);
      steps := before + [TaskStep];
    }

    /** The load of rx_data_len -= ret. */
    method LoadLen(rxLen: nat, len: nat, ret: nat, ghost chunk: seq<byte>, arrivals: nat -> seq<seq<byte>>,
                   ghost k: nat, ghost start: State, ghost before: seq<Step>)
      returns (reg: int, ghost steps: seq<Step>)
      requires Ran(start, before, arrivals, k) && |chunk| == ret <= rxLen && task == Got(rxLen, len, chunk)
      modifies this`task
      ensures Ran(start, steps, arrivals, k) && task == Loaded(rxLen - ret, len, chunk, reg)
    {
      ghost var s := View();
      reg := rxDataLen;
      task := Loaded(rxLen - ret, len, chunk, reg);
      Took(s, start, before, arrivals, k);
      steps := before + [TaskStep];
    }

    /** The store of rx_data_len -= ret. */
    method StoreLen(rest: nat, len: nat, ret: nat, reg: int, ghost chunk: seq<byte>, arrivals: nat -> seq<seq<byte>>,
                    ghost k: nat, ghost start: State, ghost before: seq<Step>)
      returns (ghost steps: seq<Step>)
      requires Ran(start, before, arrivals, k) && |chunk| == ret && task == Loaded(rest, len, chunk, reg)
      modifies this`task, this`rxDataLen
      ensures Ran(start, steps, arrivals, k) && task == Out(rest, len, chunk)
    {
      ghost var s := View();
      rxDataLen := reg - ret;
      task := Out(rest, len, chunk);
      Took(s, start, before, arrivals, k);
      steps := before + [TaskStep];
    }

    /** The load, and the interrupts that come before the store. */
    method LoadAndWait(rxLen: nat, len: nat, ret: nat, ghost chunk: seq<byte>, arrivals: nat -> seq<seq<byte>>, k: nat,
                       ghost start: State, ghost before: seq<Step>)
      returns (reg: int, ghost steps: seq<Step>)
      requires Ran(start, before, arrivals, k) && |chunk| == ret <= rxLen && task == Got(rxLen, len, chunk)
      modifies this
      ensures Ran(start, steps, arrivals, k + 1) && task == Loaded(rxLen - ret, len, chunk, reg)
    {
      reg, steps := LoadLen(rxLen, len, ret, chunk, arrivals, k, start, before);
      steps := Await(arrivals, k, start, steps);
    }

    /** rx_data_len -= ret, an interrupt possibly coming between the load and the store. */
    method TakeOff(rxLen: nat, len: nat, ret: nat, ghost chunk: seq<byte>, arrivals: nat -> seq<seq<byte>>, k: nat,
                   ghost start: State, ghost before: seq<Step>)
      returns (ghost steps: seq<Step>)
      requires Ran(start, before, arrivals, k) && |chunk| == ret <= rxLen && task == Got(rxLen, len, chunk)
      modifies this
      ensures Ran(start, steps, arrivals, k + 1) && task == Out(rxLen - ret, len, chunk)
    {
      var reg;
      reg, steps := LoadAndWait(rxLen, len, ret, chunk, arrivals, k, start, before);
      steps := StoreLen(rxLen - ret, len, ret, reg, chunk, arrivals, k + 1, start, steps);
    }

    /** The write. */
    method WriteOut(rest: nat, len: nat, ghost chunk: seq<byte>, arrivals: nat -> seq<seq<byte>>, ghost k: nat,
                    ghost start: State, ghost before: seq<Step>)
      returns (ghost steps: seq<Step>)
      requires Ran(start, before, arrivals, k) && |chunk| <= len <= rxBuf.Length
      requires task == Out(rest, len, chunk) && rxBuf[..][..len] == chunk + Fill(0, len - |chunk|)
      modifies this`task, this`echoed
      ensures Ran(start, steps, arrivals, k) && task == Head(rest)
    {
      ghost var s := View();
      Associate(echoed, chunk, Fill(0, len - |chunk|));
      echoed := echoed + rxBuf[..len];
      task := Head(rest);
      Took(s, start, before, arrivals, k);
      steps := before + [TaskStep];
    }

    /** The bytes got are taken off both counters. */
    method Account(rxLen: nat, len: nat, ret: nat, ghost chunk: seq<byte>, arrivals: nat -> seq<seq<byte>>, k: nat,
                   ghost start: State, ghost before: seq<Step>)
      returns (rest: nat, ghost steps: seq<Step>)
      requires Ran(start, before, arrivals, k) && ret == |chunk| <= rxLen && task == Got(rxLen, len, chunk)
      modifies this
      ensures Ran(start, steps, arrivals, k + 2) && rest == rxLen - ret && task == Out(rest, len, chunk)
    {
      steps := Await(arrivals, k, start, before);
      rest := rxLen - ret;
      steps := TakeOff(rxLen, len, ret, chunk, arrivals, k + 1, start, steps);
    }

    /** A round of the loop that got bytes: account for them and echo them. */
    method EchoChunk(rxLen: nat, len: nat, ret: nat, ghost chunk: seq<byte>, arrivals: nat -> seq<seq<byte>>, k: nat,
                     ghost start: State, ghost before: seq<Step>)
      returns (rest: nat, ghost steps: seq<Step>)
      requires Ran(start, before, arrivals, k) && ret == |chunk| <= rxLen && ret <= len <= rxBuf.Length
      requires task == Got(rxLen, len, chunk) && rxBuf[..][..len] == chunk + Fill(0, len - ret)
      modifies this
      ensures Ran(start, steps, arrivals, k + 3) && rest == rxLen - ret && task == Head(rest)
    {
      rest, steps := Account(rxLen, len, ret, chunk, arrivals, k, start, before);
      steps := Await(arrivals, k + 2, start, steps);
      steps := WriteOut(rest, len, chunk, arrivals, k + 3, start, steps);
    }

    /** The load of rx_msg_num--. */
    method LoadCount(arrivals: nat -> seq<seq<byte>>, ghost k: nat, ghost start: State, ghost before: seq<Step>)
      returns (reg: int, ghost steps: seq<Step>)
      requires Ran(start, before, arrivals, k) && task == Down
      modifies this`task
      ensures Ran(start, steps, arrivals, k) && task == Lower(reg)
    {
      ghost var s := View();
      reg := rxMsgNum;
      task := Lower(reg);
      Took(s, start, before, arrivals, k);
      steps := before + [TaskStep];
    }

    /** The store of rx_msg_num--. */
    method StoreCount(reg: int, arrivals: nat -> seq<seq<byte>>, ghost k: nat, ghost start: State,
                      ghost before: seq<Step>)
      returns (ghost steps: seq<Step>)
      requires Ran(start, before, arrivals, k) && task == Lower(reg)
      modifies this`task, this`rxMsgNum
      ensures Ran(start, steps, arrivals, k) && task == Waiting
    {
      ghost var s := View();
      rxMsgNum := reg - 1;
      task := Waiting;
      Took(s, start, before, arrivals, k);
      steps := before + [TaskStep];
    }

    /** rx_msg_num--, likewise in two steps. */
    method CountDown(arrivals: nat -> seq<seq<byte>>, k: nat, ghost start: State, ghost before: seq<Step>)
      returns (ghost steps: seq<Step>)
      requires Ran(start, before, arrivals, k) && task == Down
      modifies this
      ensures Ran(start, steps, arrivals, k + 1) && task == Waiting
    {
      var reg;
      reg, steps := LoadCount(arrivals, k, start, before);
      steps := Await(arrivals, k, start, steps);
      steps := StoreCount(reg, arrivals, k + 1, start, steps);
    }

    /** rx_msg_num > 0 */
    method TestCount(arrivals: nat -> seq<seq<byte>>, ghost k: nat, ghost start: State, ghost before: seq<Step>)
      returns (more: bool, ghost steps: seq<Step>)
      requires Ran(start, before, arrivals, k) && task == Test
      modifies this`task, this`lostMsgs
      ensures Ran(start, steps, arrivals, k) && task == if more then Down else Waiting
    {
      ghost var s := View();
      more := rxMsgNum > 0;
      if !more && lostMsgs > 0 {
        lostMsgs := lostMsgs - 1;
      }
      task := if more then Down else Waiting;
      assert View() == TaskNext(s);
      Took(s, start, before, arrivals, k);
      steps := before + [TaskStep];
    }

    /** if (rx_msg_num > 0) rx_msg_num-- */
    method CountOff(arrivals: nat -> seq<seq<byte>>, k: nat, ghost start: State, ghost before: seq<Step>)
      returns (places: nat, ghost steps: seq<Step>)
      requires Ran(start, before, arrivals, k) && task == Test
      modifies this
      ensures Ran(start, steps, arrivals, places) && task == Waiting
    {
      var more;
      more, steps := TestCount(arrivals, k, start, before);
      places := k;
      if more {
        steps := Await(arrivals, k, start, steps);
        steps := CountDown(arrivals, k + 1, start, steps);
        places := k + 2;
      }
    }

    /** The message is taken off the queue. */
    method TakeMessage(arrivals: nat -> seq<seq<byte>>) returns (ghost steps: seq<Step>)
      requires task == Waiting && queue > 0
      modifies this`task, this`queue
      ensures Ran(old(View()), steps, arrivals, 0) && task == Snapshot && rxDataLen == old(rxDataLen)
    {
      ghost var start := View();
      queue := queue - 1;
      task := Snapshot;
      Took(start, start, [], arrivals, 0);
      steps := [] + [TaskStep];
    }

    /** rx_len = rx_data_len */
    method ReadLen(arrivals: nat -> seq<seq<byte>>, ghost k: nat, ghost start: State, ghost before: seq<Step>)
      returns (rxLen: nat, ghost steps: seq<Step>)
      requires Ran(start, before, arrivals, k) && task == Snapshot
      requires rxDataLen == start.dataLen + |Concat(arrivals(0))|
      modifies this`task
      ensures Ran(start, steps, arrivals, k) && task == Head(rxLen)
    {
      ghost var s := View();
      rxLen := if rxDataLen > 0 then rxDataLen else 0;
      task := Head(rxLen);
      Took(s, start, before, arrivals, k);
      steps := before + [TaskStep];
    }

    /** Takes a message and reads how much is there. */
    method Begin(arrivals: nat -> seq<seq<byte>>) returns (rxLen: nat, ghost steps: seq<Step>)
      requires task == Waiting && queue > 0
      modifies this
      ensures Ran(old(View()), steps, arrivals, 1) && task == Head(rxLen)
    {
      ghost var start := View();
      steps := TakeMessage(arrivals);
      steps := Await(arrivals, 0, start, steps);
      rxLen, steps := ReadLen(arrivals, 1, start, steps);
    }

    /** One round of the loop; more tells whether it goes on to its test again. */
    method Round(rxLen: nat, arrivals: nat -> seq<seq<byte>>, from: nat, ghost start: State, ghost before: seq<Step>)
      returns (more: bool, rest: nat, k: nat, ghost steps: seq<Step>)
      requires Ran(start, before, arrivals, from) && task == Head(rxLen) && rxLen > 0
      requires rxBuf.Length == RX_BUF_SIZE + 1
      modifies this, rxBuf
      ensures Ran(start, steps, arrivals, k) && task == if more then Head(rest) else Test
      ensures more ==> rest < rxLen
    {
      steps := Await(arrivals, from, start, before);
      var len, ret;
      ghost var chunk;
      len, ret, chunk, steps := ReadChunk(rxLen, arrivals, from + 1, start, steps);
      more, rest, k := ret != 0, rxLen, from + 1;
      if more {
        rest, steps := EchoChunk(rxLen, len, ret, chunk, arrivals, k, start, steps);
        k := k + 3;
      }
    }

    /** The test that ends the loop. */
    method Finish(arrivals: nat -> seq<seq<byte>>, ghost k: nat, ghost start: State, ghost before: seq<Step>)
      returns (ghost steps: seq<Step>)
      requires Ran(start, before, arrivals, k) && task == Head(0)
      modifies this`task
      ensures Ran(start, steps, arrivals, k) && task == Test
    {
      ghost var s := View();
      task := Test;
      assert View() == TaskNext(s);
      Took(s, start, before, arrivals, k);
      steps := before + [TaskStep];
    }

    /** The loop, to its end. */
    method Drain(first: nat, arrivals: nat -> seq<seq<byte>>, ghost start: State, ghost before: seq<Step>)
      returns (k: nat, ghost steps: seq<Step>)
      requires Ran(start, before, arrivals, 1) && task == Head(first) && rxBuf.Length == RX_BUF_SIZE + 1
      modifies this, rxBuf
      ensures Ran(start, steps, arrivals, k) && task == Test
    {
      k, steps := 1, before;
      var rxLen, more := first, true;
      while more && rxLen > 0
        invariant Ran(start, steps, arrivals, k) && task == if more then Head(rxLen) else Test
        decreases more, rxLen
      {
        more, rxLen, k, steps := Round(rxLen, arrivals, k, start, steps);
      }
      if more {
        steps := Finish(arrivals, k, start, steps);
      }
    }

    /** From the message to the next wait. */
    method Turn(arrivals: nat -> seq<seq<byte>>) returns (places: nat, ghost steps: seq<Step>)
      requires task == Waiting && queue > 0 && rxBuf.Length == RX_BUF_SIZE + 1
      modifies this, rxBuf
      ensures Ran(old(View()), steps, arrivals, places) && task == Waiting
    {
      ghost var start := View();
      var rxLen;
      rxLen, steps := Begin(arrivals);
      var k;
      k, steps := Drain(rxLen, arrivals, start, steps);
      steps := Await(arrivals, k, start, steps);
      places, steps := CountOff(arrivals, k + 1, start, steps);
    }

    /**
     The branch for a receive message, whatever interrupts come in between: it
     runs the machine from one wait to the next, with exactly the interrupts of
     the places it passes, so that the machine's theorems hold of this code; and
     it terminates. It takes one message, and echoes all bytes that were counted
     when it looked, also those that came in since it was woken up.
     */
    method Receive(arrivals: nat -> seq<seq<byte>>) returns (places: nat, ghost steps: seq<Step>)
      requires Inv(View()) && task == Waiting && queue > 0 && rxBuf.Length == RX_BUF_SIZE + 1
      modifies this, rxBuf
      ensures View() == Replay(old(View()), steps) && Interrupts(steps) == Arrived(arrivals, places)
      ensures steps != [] && steps[0] == TaskStep && task == Waiting && Inv(View())
      ensures old(queue) - 1 <= queue <= old(queue) - 1 + |Arrived(arrivals, places)|
      ensures var n := old(rxDataLen) + |Concat(arrivals(0))|; |echoed| == |old(echoed)| + if n > 0 then n else 0
    {
      ghost var start := View();
      places, steps := Turn(arrivals);
      FirstTakes(start, steps);
      ReplayInv(start, steps);
      TurnTakes(start, steps);
      SentAtMost(start, steps);
      TurnEchoes(start, steps);
    }

    /** Left alone, the task works off its messages, one turn each, and comes to rest where
        the machine does. */
    method WorkOff()
      requires Inv(View()) && task == Waiting && rxBuf.Length == RX_BUF_SIZE + 1
      modifies this, rxBuf
      ensures queue == 0 && View() == Settled(old(View()))
    {
      while queue > 0
        invariant Inv(View()) && task == Waiting && Settled(View()) == Settled(old(View()))
        decreases queue
      {
        ghost var s := View();
        var places;
        ghost var steps;
        places, steps := Receive(_ => []);
        NoneArrived(_ => [], places);
        TaskStepsOnly(steps);
        SettledSame(s, steps);
      }
    }
  }
}
