/**
 What one pass of the SSL demo server's connection loop does to its connections,
 without lists and blocks. All connections are read into one static buffer, and
 what it holds behind the bytes of a read stays from earlier reads and parses.
 */
module HttpPass {
  import opened Bytes
  import opened HttpScan

  const RECV_BUF_LEN: nat := 1024
  const PS_SUCCESS := 0
  const PS_ARG_FAIL := -6
  const PS_PROTOCOL_FAIL := -12
  const SHUTDOWN: seq<byte> := [77, 65, 84, 82, 73, 88, 95, 83, 72, 85, 84, 68, 79, 87, 78]  // MATRIX_SHUTDOWN

  type Buffer = s: seq<byte> | |s| == RECV_BUF_LEN witness Fill(0, RECV_BUF_LEN)
  /** What a read stores at the front of the buffer. */
  type Part = s: seq<byte> | |s| <= RECV_BUF_LEN
  type Chunk = s: seq<byte> | 1 <= |s| <= RECV_BUF_LEN witness [0]

  /** The last read of a connection in a pass: failed, some bytes, or any other
      answer, such as the end of the stream, that stores nothing and is not
      taken for a failure. */
  datatype Read = Failed | Data(data: Chunk) | Other

  /** The reads of one connection in one pass: what those store that announce more data, then the last. */
  datatype Burst = Burst(more: seq<Part>, last: Read)

  datatype ConnIo = ConnIo(burst: Burst, writeOk: bool)

  /** Open or closed; closed for what reason, whether on a request for the end, and
      whether the response was written, or tried to be. */
  datatype Outcome = Keep(life: Life) | Close(reason: int, shutdown: bool, responded: bool)

  /** What a pass leaves of a connection and in the buffer. */
  datatype Served = Served(outcome: Outcome, buf: Buffer)

  // ----- One connection -----

  function ReadInto(buf: Buffer, data: Part): Buffer {
    Overlay(buf, 0, data)
  }

  /** The parser's answer, the life of the connection behind it, and the buffer. */
  datatype Parsed = Parsed(verdict: Verdict, life: Life, buf: Buffer)

  /** httpBasicParse on the first len bytes of the buffer. */
  function Parse(o: Life, buf: Buffer, len: nat): Parsed
    requires len <= RECV_BUF_LEN
  {
    var n := Reached(o.line, buf, len);
    var t := Take(o, buf[..n]);
    Parsed(t.verdict, t.life, FeedBuffer(o.line, buf, n))
  }

  /** The reads that announce more data: the whole buffer is parsed behind each, and only an error counts. */
  function Announced(o: Life, buf: Buffer, more: seq<Part>): Parsed
    decreases |more|
  {
    if more == [] then Parsed(Partial, o, buf)
    else
      var p := Parse(o, ReadInto(buf, more[0]), RECV_BUF_LEN);
      if p.verdict.Error? then p else Announced(p.life, p.buf, more[1..])
  }

  /** The last read: without data the length keeps its initial value, the size of the buffer. */
  function Final(o: Life, buf: Buffer, last: Read): Parsed
    requires !last.Failed?
  {
    if last.Data? then Parse(o, ReadInto(buf, last.data), |last.data|) else Parse(o, buf, RECV_BUF_LEN)
  }

  function Answer(verdict: Verdict, life: Life, writeOk: bool): Outcome {
    match verdict
    case Error => Close(PS_PROTOCOL_FAIL, false, false)
    case Complete => Close(if writeOk then PS_SUCCESS else PS_PROTOCOL_FAIL, false, true)
    case Partial => if SHUTDOWN <= life.line then Close(PS_ARG_FAIL, true, false) else Keep(life)
  }

  /** What becomes of a readable connection. */
  function Serve(o: Life, buf: Buffer, io: ConnIo): Served {
    var p := Announced(o, buf, io.burst.more);
    if p.verdict.Error? then Served(Close(PS_PROTOCOL_FAIL, false, false), p.buf)
    else if io.burst.last.Failed? then Served(Close(PS_ARG_FAIL, false, false), p.buf)
    else
      var q := Final(p.life, p.buf, io.burst.last);
      Served(Answer(q.verdict, q.life, io.writeOk), q.buf)
  }

  /** What a connection's pass amounts to. */
  function Decide(fd: int, o: Life, buf: Buffer, ready: set<int>, io: ConnIo): Served {
    if fd in ready then Serve(o, buf, io) else Served(Keep(o), buf)
  }

  // ----- A burst of reads and the stream it is part of -----

  /** The chunks the announcing reads have the parser read. */
  function Chunks(o: Life, buf: Buffer, more: seq<Part>): seq<seq<byte>>
    decreases |more|
  {
    if more == [] then []
    else
      var b := ReadInto(buf, more[0]);
      var p := Parse(o, b, RECV_BUF_LEN);
      [b] + if p.verdict.Error? then [] else Chunks(p.life, p.buf, more[1..])
  }

  /** The chunk the last read has the parser read. */
  function LastChunk(line: seq<byte>, buf: Buffer, last: Read): seq<byte>
    requires !last.Failed?
  {
    if last.Data? then
      var b := ReadInto(buf, last.data);
      b[..Reached(line, b, |last.data|)]
    else buf
  }

  /** All chunks of a burst. */
  function AllChunks(o: Life, buf: Buffer, burst: Burst): seq<seq<byte>>
    requires !burst.last.Failed?
  {
    var p := Announced(o, buf, burst.more);
    Chunks(o, buf, burst.more)
    + if p.verdict.Error? then [] else [LastChunk(p.life.line, p.buf, burst.last)]
  }

  /** How a burst would be answered, were it parsed as one stream up to its first answer. */
  function StreamAnswer(o: Life, buf: Buffer, io: ConnIo): Outcome
    requires !io.burst.last.Failed?
  {
    var chunks := AllChunks(o, buf, io.burst);
    var s := Run(o.line, chunks);
    Answer(s.verdict, Life(s.pending, o.fed + chunks), io.writeOk)
  }

  /** The parser's last answer in the pass. */
  function LastVerdict(o: Life, buf: Buffer, burst: Burst): Verdict
    requires !burst.last.Failed?
  {
    var p := Announced(o, buf, burst.more);
    if p.verdict.Error? then Error else Final(p.life, p.buf, burst.last).verdict
  }

  lemma {:induction false} RunFirst(line: seq<byte>, chunk: seq<byte>, rest: seq<seq<byte>>)
    ensures Run(line, [chunk] + rest)
         == var s := Feed(line, chunk); if s.verdict.Partial? then Run(s.pending, rest) else s
  {
    assert ([chunk] + rest)[1..] == rest;
  }

  lemma {:induction false} ParseWhole(o: Life, b: Buffer)
    ensures Parse(o, b, RECV_BUF_LEN).verdict == Feed(o.line, b).verdict
    ensures Feed(o.line, b).verdict.Partial? ==>
      Parse(o, b, RECV_BUF_LEN).life == Life(Feed(o.line, b).pending, o.fed + [b])
  {
    assert b[..RECV_BUF_LEN] == b;
  }

  /** As long as no announcing read completes the request, the parser is in the stream's state. */
  lemma {:induction false} AnnouncedIsRun(o: Life, buf: Buffer, more: seq<Part>)
    ensures Announced(o, buf, more).verdict.Error? || Announced(o, buf, more).verdict.Partial?
    ensures var s := Run(o.line, Chunks(o, buf, more)); var p := Announced(o, buf, more);
      && (s.verdict.Error? ==> p.verdict.Error?)
      && (s.verdict.Partial? ==>
            p.verdict.Partial? && p.life == Life(s.pending, o.fed + Chunks(o, buf, more)))
    decreases |more|
  {
    if more == [] {
      assert o.fed + [] == o.fed;
    } else {
      var b := ReadInto(buf, more[0]);
      var p := Parse(o, b, RECV_BUF_LEN);
      ParseWhole(o, b);
      var rest := if p.verdict.Error? then [] else Chunks(p.life, p.buf, more[1..]);
      RunFirst(o.line, b, rest);
      if !p.verdict.Error? {
        AnnouncedIsRun(p.life, p.buf, more[1..]);
        Associate(o.fed, [b], rest);
      }
    }
  }

  lemma {:induction false} RunLast(line: seq<byte>, chunks: seq<seq<byte>>, chunk: seq<byte>)
    ensures Run(line, chunks + [chunk])
         == var s := Run(line, chunks); if s.verdict.Partial? then Feed(s.pending, chunk) else s
  {
    RunAppend(line, chunks, [chunk]);
    assert [chunk][1..] == [];
  }

  /**
   A burst is answered as its stream says, exactly when no read that announces
   more data completes the request; or, when one does and that answer is lost,
   when the last read happens to complete another request.
   */
  lemma {:induction false} BurstAnswer(o: Life, buf: Buffer, io: ConnIo)
    requires !io.burst.last.Failed?
    ensures Serve(o, buf, io).outcome == StreamAnswer(o, buf, io)
       <==> !Run(o.line, Chunks(o, buf, io.burst.more)).verdict.Complete? || LastVerdict(o, buf, io.burst).Complete?
  {
    var burst := io.burst;
    var chunks, p := Chunks(o, buf, burst.more), Announced(o, buf, burst.more);
    var s := Run(o.line, chunks);
    AnnouncedIsRun(o, buf, burst.more);
    if p.verdict.Error? {
      assert AllChunks(o, buf, burst) == chunks;
    } else {
      var last := LastChunk(p.life.line, p.buf, burst.last);
      RunLast(o.line, chunks, last);
      FinalIsTake(p.life, p.buf, burst.last);
      Associate(o.fed, chunks, [last]);
    }
  }

  /** That stream answer is the one-pass scan of all bytes fed to the connection since it
      was opened or last completed a request, in whatever passes, except for the limit
      on a continued line. */
  lemma {:induction false} StreamIsWhole(o: Life, buf: Buffer, io: ConnIo)
    requires Coherent(o) && !io.burst.last.Failed?
    ensures var all := o.fed + AllChunks(o, buf, io.burst);
      StreamAnswer(o, buf, io)
      == Answer(if AnyOversize(all) then Error else Scan(Concat(all)), Life(Pending(Concat(all)), all), io.writeOk)
  {
    RunAppend([], o.fed, AllChunks(o, buf, io.burst));
    RunIsScan(o.fed + AllChunks(o, buf, io.burst));
  }

  lemma {:induction false} FinalIsTake(o: Life, buf: Buffer, last: Read)
    requires !last.Failed?
    ensures var chunk := LastChunk(o.line, buf, last); var q := Final(o, buf, last);
      q.verdict == Take(o, chunk).verdict && q.life == Take(o, chunk).life
  {
    if last.Other? {
      assert buf[..RECV_BUF_LEN] == buf;
    }
  }

  /** Bytes that continue no open line are taken in by themselves. */
  lemma {:induction false} DataAlone(line: seq<byte>, buf: Buffer, data: Chunk)
    requires line == [] || LF in data
    ensures LastChunk(line, buf, Data(data)) == data
  {
    assert ReadInto(buf, data)[..|data|] == data;
  }

  /** A burst whose announcing read ends one request and whose last read starts
      another line: the request is never answered. */
  lemma {:induction false} ForgottenRequest(buf: Buffer)
    ensures var z: Part := [CR, LF] + Fill(0, RECV_BUF_LEN - 2);
      var io := ConnIo(Burst([z], Data([65])), true);
      && StreamAnswer(NEW_LIFE, buf, io) == Close(PS_SUCCESS, false, true)
      && Serve(NEW_LIFE, buf, io).outcome == Keep(Life([65], [[65]]))
      && Scan(z + [65]) == Complete
  {
    var z: Part := [CR, LF] + Fill(0, RECV_BUF_LEN - 2);
    var more: seq<Part> := [z];
    var io := ConnIo(Burst(more, Data([65])), true);
    FullRead(buf, z);
    EmptyLineFirst(z);
    EmptyLineFirst(z + [65]);
    ParseWhole(NEW_LIFE, z);
    assert z[..RECV_BUF_LEN] == z && [] + z == z;
    var p := Parse(NEW_LIFE, z, RECV_BUF_LEN);
    assert p.verdict == Complete && p.life == NEW_LIFE;
    assert more[1..] == [];
    assert Announced(NEW_LIFE, buf, more) == Parsed(Partial, NEW_LIFE, p.buf);
    FinalIsTake(NEW_LIFE, p.buf, Data([65]));
    DataAlone([], p.buf, [65]);
    assert Kind([65]).Open? && [] + [65] == [65];
    assert Chunks(NEW_LIFE, buf, more) == [z];
    RunLast([], [z], [65]);
    RunFirst([], z, []);
    assert [z] + [] == [z];
  }

  lemma {:induction false} EmptyLineFirst(z: seq<byte>)
    requires 2 <= |z| && z[0] == CR && z[1] == LF
    ensures IndexOf(z, LF) == 1 && Kind(z).Empty? && Scan(z) == Complete
  {
    IndexOfUnique(z, LF, 1);
  }

  lemma {:induction false} FullRead(buf: Buffer, d: Part)
    requires |d| == RECV_BUF_LEN
    ensures ReadInto(buf, d) == d
  {
  }

  // ----- Bytes left in the buffer -----

  /** Bytes that leave a continued line open: the parser then looks at the byte behind them. */
  predicate LooksBehind(line: seq<byte>, data: seq<byte>) {
    line != [] && LF !in data && |data| <= HTTPS_BUFFER_MAX
  }

  /** Every byte that counts was stored by this connection's own reads of this pass. */
  predicate OwnBytes(line: seq<byte>, burst: Burst) {
    && (forall i | 0 <= i < |burst.more| :: |burst.more[i]| == RECV_BUF_LEN)
    && (burst.more == [] ==> !burst.last.Other? && (burst.last.Data? ==> !LooksBehind(line, burst.last.data)))
  }

  /** Then what becomes of the connection does not depend on what the buffer held. */
  lemma {:induction false} BufferUnseen(o: Life, b: Buffer, c: Buffer, io: ConnIo)
    requires OwnBytes(o.line, io.burst)
    ensures Serve(o, b, io).outcome == Serve(o, c, io).outcome
  {
    var burst := io.burst;
    if burst.more != [] {
      FullRead(b, burst.more[0]);
      FullRead(c, burst.more[0]);
    } else if burst.last.Data? {
      DataUnseen(o, b, c, burst.last.data);
    }
  }

  lemma {:induction false} DataUnseen(o: Life, b: Buffer, c: Buffer, data: Chunk)
    requires !LooksBehind(o.line, data)
    ensures Final(o, b, Data(data)).verdict == Final(o, c, Data(data)).verdict
    ensures Final(o, b, Data(data)).life == Final(o, c, Data(data)).life
  {
    FinalIsTake(o, b, Data(data));
    FinalIsTake(o, c, Data(data));
    if o.line == [] || LF in data {
      DataAlone(o.line, b, data);
      DataAlone(o.line, c, data);
    } else {
      assert ReadInto(b, data)[..|data|] == ReadInto(c, data)[..|data|] == data;
      ExtraTooLong(o.line, ReadInto(b, data), |data|);
      ExtraTooLong(o.line, ReadInto(c, data), |data|);
    }
  }

  function As(n: nat): (s: seq<byte>)
    ensures |s| == n && LF !in s
  {
    seq(n, _ => 65)
  }

  /** A buffer that is an error behind any open line. */
  function Spoiling(line: seq<byte>): Buffer {
    if line == [] then [LF] + As(RECV_BUF_LEN - 1) else As(RECV_BUF_LEN)
  }

  /** A buffer that keeps the connection open behind any open line. */
  function Sparing(line: seq<byte>): Buffer {
    if line == [] then As(RECV_BUF_LEN) else [CR, LF] + As(RECV_BUF_LEN - 2)
  }

  lemma {:induction false} SpoilingSpoils(o: Life)
    ensures Take(o, Spoiling(o.line)).verdict == Error
  {
    var b := Spoiling(o.line);
    if o.line == [] {
      assert [] + b == b && IndexOf(b, LF) == 0;
    } else {
      IndexOfAbsent(b);
    }
  }

  lemma {:induction false} SparingSpares(o: Life)
    requires LF !in o.line
    ensures var t := Take(o, Sparing(o.line)); t.verdict == Partial && t.life.line != [] && t.life.line[0] == 65
  {
    var b := Sparing(o.line);
    if o.line == [] {
      assert [] + b == b;
      IndexOfAbsent(b);
    } else {
      IndexOfUnique(b, LF, 1);
      FirstNewline(o.line, b);
      assert (o.line + b)[|o.line|] == CR;
      BehindFirstLine(o.line, b);
      assert b[2..] == As(RECV_BUF_LEN - 2);
      IndexOfAbsent(b[2..]);
    }
  }

  lemma {:induction false} DataAndBehind(line: seq<byte>, buf: Buffer, data: Chunk)
    requires LooksBehind(line, data)
    ensures LastChunk(line, buf, Data(data)) == if buf[|data|] == LF then data + [LF] else data
  {
    var b := ReadInto(buf, data);
    assert b[..|data|] == data && b[|data|] == buf[|data|];
    if b[|data|] == LF {
      assert b[..|data| + 1] == data + [LF];
    }
  }

  /** A pass of one read that does not end the open line, and what is behind its bytes is no newline. */
  lemma {:induction false} StaysOpen(o: Life, buf: Buffer, data: Chunk, writeOk: bool)
    requires LF !in o.line && LooksBehind(o.line, data) && buf[|data|] != LF
    ensures Serve(o, buf, ConnIo(Burst([], Data(data)), writeOk)).outcome
         == Answer(Partial, Life(o.line + data, o.fed + [data]), writeOk)
  {
    FinalIsTake(o, buf, Data(data));
    DataAndBehind(o.line, buf, data);
    ExtraByte(o.line, data);
  }

  /** The same, but a newline was left there: it ends the line. */
  lemma {:induction false} NewlineBehind(o: Life, buf: Buffer, data: Chunk, writeOk: bool)
    requires LF !in o.line && LooksBehind(o.line, data) && buf[|data|] == LF
    ensures var t := Take(o, data + [LF]);
      && t.life.line == []
      && Serve(o, buf, ConnIo(Burst([], Data(data)), writeOk)).outcome == Answer(t.verdict, t.life, writeOk)
  {
    FinalIsTake(o, buf, Data(data));
    DataAndBehind(o.line, buf, data);
    ExtraByte(o.line, data);
  }

  lemma {:induction false} DataSeen(o: Life, io: ConnIo, data: Chunk) returns (b: Buffer, c: Buffer)
    requires LF !in o.line && LooksBehind(o.line, data) && io.burst == Burst([], Data(data))
    ensures Serve(o, b, io).outcome != Serve(o, c, io).outcome
  {
    b, c := As(RECV_BUF_LEN)[|data| := LF], As(RECV_BUF_LEN);
    NewlineBehind(o, b, data, io.writeOk);
    StaysOpen(o, c, data, io.writeOk);
    assert io == ConnIo(Burst([], Data(data)), io.writeOk);
  }

  /**
   When every announcing read fills the buffer, the outcome depends on what the
   buffer held exactly in two cases: the only read stores nothing, as at the end of
   a stream, or it continues the open line without ending it.
   */
  lemma {:induction false} LeftoverSeen(o: Life, io: ConnIo)
    requires LF !in o.line && forall i | 0 <= i < |io.burst.more| :: |io.burst.more[i]| == RECV_BUF_LEN
    ensures (forall b: Buffer, c: Buffer :: Serve(o, b, io).outcome == Serve(o, c, io).outcome)
       <==> OwnBytes(o.line, io.burst)
  {
    if OwnBytes(o.line, io.burst) {
      forall b: Buffer, c: Buffer ensures Serve(o, b, io).outcome == Serve(o, c, io).outcome {
        BufferUnseen(o, b, c, io);
      }
    } else if io.burst.last.Data? {
      var b, c := DataSeen(o, io, io.burst.last.data);
    } else {
      var b, c := Spoiling(o.line), Sparing(o.line);
      FinalIsTake(o, b, Other);
      FinalIsTake(o, c, Other);
      SpoilingSpoils(o);
      SparingSpares(o);
      assert Serve(o, b, io).outcome.Close? && Serve(o, c, io).outcome.Keep?;
    }
  }

  // ----- All connections of a pass -----

  /** What decides for descriptor, life, buffer found and place in the pass. */
  type Decider = (int, Life, Buffer, nat) -> Served

  function Deciding(ready: set<int>, io: nat -> ConnIo): Decider {
    (fd: int, o: Life, b: Buffer, k: nat) => Decide(fd, o, b, ready, io(k))
  }

  /** The outcomes of a list of connections, the first at place k: each finds the
      buffer as the one before it left it. */
  function Decisions(judge: Decider, fds: seq<int>, lives: seq<Life>, buf: Buffer, k: nat): (outs: seq<Outcome>)
    requires |fds| == |lives|
    ensures |outs| == |fds|
  {
    if fds == [] then []
    else
      var d := judge(fds[0], lives[0], buf, k);
      [d.outcome] + Decisions(judge, fds[1..], lives[1..], d.buf, k + 1)
  }

  /** The buffer as the first n connections leave it. */
  function BufferAfter(judge: Decider, fds: seq<int>, lives: seq<Life>, buf: Buffer, k: nat, n: nat): Buffer
    requires n <= |fds| == |lives|
  {
    if n == 0 then buf
    else BufferAfter(judge, fds[1..], lives[1..], judge(fds[0], lives[0], buf, k).buf, k + 1, n - 1)
  }

  /** Connection i is decided with the buffer as those before it leave it. */
  lemma {:induction false} DecisionsAt(judge: Decider, fds: seq<int>, lives: seq<Life>, buf: Buffer, k: nat, i: nat)
    requires i < |fds| == |lives|
    ensures Decisions(judge, fds, lives, buf, k)[i]
         == judge(fds[i], lives[i], BufferAfter(judge, fds, lives, buf, k, i), k + i).outcome
  {
    if i > 0 {
      DecisionsAt(judge, fds[1..], lives[1..], judge(fds[0], lives[0], buf, k).buf, k + 1, i - 1);
    }
  }

  /** A connection that parses its own bytes only, or is not readable, is independent of all others. */
  lemma {:induction false} Independent(fds: seq<int>, lives: seq<Life>, buf: Buffer, ready: set<int>,
                                       io: nat -> ConnIo, k: nat, i: nat, alone: Buffer)
    requires i < |fds| == |lives| && (fds[i] in ready ==> OwnBytes(lives[i].line, io(k + i).burst))
    ensures Decisions(Deciding(ready, io), fds, lives, buf, k)[i]
         == Decide(fds[i], lives[i], alone, ready, io(k + i)).outcome
  {
    DecisionsAt(Deciding(ready, io), fds, lives, buf, k, i);
    if fds[i] in ready {
      BufferUnseen(lives[i], BufferAfter(Deciding(ready, io), fds, lives, buf, k, i), alone, io(k + i));
    }
  }

  /** Two readable connections: the second finds the buffer as the first leaves it. */
  lemma {:induction false} SecondOfTwo(o: Life, p: Life, buf: Buffer, io: nat -> ConnIo)
    ensures Decisions(Deciding({3, 4}, io), [3, 4], [o, p], buf, 0)[1]
         == Serve(p, Serve(o, buf, io(0)).buf, io(1)).outcome
  {
    var judge := Deciding({3, 4}, io);
    DecisionsAt(judge, [3, 4], [o, p], buf, 0, 1);
    assert BufferAfter(judge, [3, 4], [o, p], buf, 0, 1) == judge(3, o, buf, 0).buf;
  }

  /** Two connections, the second at the end of its stream: what the first one sent
      decides whether the second is closed as answered or as an error. */
  lemma {:induction false} LeftoverDecides(buf: Buffer) returns (io: nat -> ConnIo, ia: nat -> ConnIo)
    ensures io(1) == ia(1)
    ensures Decisions(Deciding({3, 4}, io), [3, 4], [NEW_LIFE, NEW_LIFE], buf, 0)[1] == Close(PS_SUCCESS, false, true)
    ensures Decisions(Deciding({3, 4}, ia), [3, 4], [NEW_LIFE, NEW_LIFE], buf, 0)[1]
         == Close(PS_PROTOCOL_FAIL, false, false)
  {
    var other := ConnIo(Burst([], Other), true);
    io := k => if k == 0 then ConnIo(Burst([], Data([CR, LF])), true) else other;
    ia := k => if k == 0 then ConnIo(Burst([], Data([LF])), true) else other;
    var b, c := ReadInto(buf, [CR, LF]), ReadInto(buf, [LF]);
    LeftBehind(buf, [CR, LF]);
    LeftBehind(buf, [LF]);
    SecondOfTwo(NEW_LIFE, NEW_LIFE, buf, io);
    SecondOfTwo(NEW_LIFE, NEW_LIFE, buf, ia);
    FinalIsTake(NEW_LIFE, b, Other);
    FinalIsTake(NEW_LIFE, c, Other);
    EmptyLineFirst(b);
    assert [] + b == b && [] + c == c && IndexOf(c, LF) == 0;
  }

  lemma {:induction false} SecondSpoilt(b: Buffer)
    requires b[1] == LF
    ensures Serve(Life([65], [[65]]), b, ConnIo(Burst([], Data([66])), true)).outcome
         == Close(PS_PROTOCOL_FAIL, false, false)
  {
    NewlineBehind(Life([65], [[65]]), b, [66], true);
    assert [66] + [LF] == [66, LF] && [65] + [66, LF] == [65, 66, LF];
    assert IndexOf([65, 66, LF], LF) == 2;
  }

  lemma {:induction false} SecondSpared(b: Buffer)
    requires b[1] != LF
    ensures Serve(Life([65], [[65]]), b, ConnIo(Burst([], Data([66])), true)).outcome
         == Keep(Life([65, 66], [[65], [66]]))
  {
    StaysOpen(Life([65], [[65]]), b, [66], true);
    assert [65] + [66] == [65, 66] && [[65]] + [[66]] == [[65], [66]];
  }

  /** Two connections, the second with the line "A" open, reading "B": the newline the
      first one left behind that place makes it an error. */
  lemma {:induction false} LeftoverNewline(buf: Buffer) returns (io: nat -> ConnIo)
    ensures io(1) == ConnIo(Burst([], Data([66])), true)
    ensures Decisions(Deciding({3, 4}, io), [3, 4], [NEW_LIFE, Life([65], [[65]])], buf, 0)[1]
         == Close(PS_PROTOCOL_FAIL, false, false)
    ensures Serve(Life([65], [[65]]), Fill(0, RECV_BUF_LEN), io(1)).outcome == Keep(Life([65, 66], [[65], [66]]))
  {
    var second := ConnIo(Burst([], Data([66])), true);
    io := k => if k == 0 then ConnIo(Burst([], Data([CR, LF])), true) else second;
    LeftBehind(buf, [CR, LF]);
    SecondOfTwo(NEW_LIFE, Life([65], [[65]]), buf, io);
    SecondSpoilt(ReadInto(buf, [CR, LF]));
    SecondSpared(Fill(0, RECV_BUF_LEN));
  }

  /** A line that decides the answer is left as it is. */
  lemma {:induction false} Unblanked(b: Buffer, n: nat)
    requires (n == 2 && b[0] == CR && b[1] == LF) || (n == 1 && b[0] == LF)
    ensures FeedBuffer([], b, n) == b
  {
    if n == 2 {
      EmptyLineFirst(b[..2]);
      assert b[0..2] == b[..2];
    } else {
      assert b[0..1] == [LF] && IndexOf([LF], LF) == 0;
    }
    assert b == b[..0] + b[0..n] + b[n..];
  }

  lemma {:induction false} LeftBehind(buf: Buffer, data: Chunk)
    requires data == [CR, LF] || data == [LF]
    ensures Serve(NEW_LIFE, buf, ConnIo(Burst([], Data(data)), true)).buf == ReadInto(buf, data)
  {
    Unblanked(ReadInto(buf, data), |data|);
  }

  // ----- What a pass keeps and what it closes -----

  function Kept<T>(all: seq<T>, outs: seq<Outcome>): (r: seq<T>)
    requires |all| == |outs|
  {
    if all == [] then []
    else (if outs[0].Keep? then [all[0]] else []) + Kept(all[1..], outs[1..])
  }

  function Dropped<T>(all: seq<T>, outs: seq<Outcome>): (r: seq<T>)
    requires |all| == |outs|
  {
    if all == [] then []
    else (if outs[0].Keep? then [] else [all[0]]) + Dropped(all[1..], outs[1..])
  }

  lemma {:induction false} OneMore<T>(before: seq<T>, all: seq<T>, outs: seq<Outcome>)
    requires |all| == |outs| && all != []
    ensures before + Kept(all, outs)
         == (if outs[0].Keep? then before + [all[0]] else before) + Kept(all[1..], outs[1..])
  {
  }

  lemma {:induction false} OneLess<T>(before: seq<T>, all: seq<T>, outs: seq<Outcome>)
    requires |all| == |outs| && all != []
    ensures before + Dropped(all, outs)
         == (if outs[0].Keep? then before else before + [all[0]]) + Dropped(all[1..], outs[1..])
  {
  }

  lemma {:induction false} HeadOf<T>(a: seq<T>)
    requires a != []
    ensures [a[0]] + a[1..] == a
  {
  }

  lemma {:induction false} OneOf<T>(x: T, k: seq<T>, d: seq<T>, a: seq<T>)
    requires multiset(k) + multiset(d) == multiset(a)
    ensures multiset([x] + k) + multiset(d) == multiset(k) + multiset([x] + d) == multiset([x] + a)
  {
  }

  /** No connection is lost and none is duplicated. */
  lemma {:induction false} Conservation<T>(all: seq<T>, outs: seq<Outcome>)
    requires |all| == |outs|
    ensures multiset(Kept(all, outs)) + multiset(Dropped(all, outs)) == multiset(all)
  {
    if all != [] {
      var k, d := Kept(all[1..], outs[1..]), Dropped(all[1..], outs[1..]);
      Conservation(all[1..], outs[1..]);
      OneOf(all[0], k, d, all[1..]);
      HeadOf(all);
      assert Kept(all, outs) == if outs[0].Keep? then [all[0]] + k else k;
      assert Dropped(all, outs) == if outs[0].Keep? then d else [all[0]] + d;
    }
  }

  /** A connection stays open exactly when its own outcome says so. */
  lemma {:induction false} KeptExactly<T>(all: seq<T>, outs: seq<Outcome>, i: nat)
    requires |all| == |outs| && i < |all|
    requires forall j, k | 0 <= j < k < |all| :: all[j] != all[k]
    ensures all[i] in Kept(all, outs) <==> outs[i].Keep?
    ensures all[i] in Dropped(all, outs) <==> outs[i].Close?
  {
    if i > 0 {
      assert all[i] == all[1..][i - 1];
      KeptExactly(all[1..], outs[1..], i - 1);
    } else {
      KeptWithin(all[1..], outs[1..], all[0]);
    }
  }

  lemma {:induction false} KeptWithin<T>(all: seq<T>, outs: seq<Outcome>, x: T)
    requires |all| == |outs| && x !in all
    ensures x !in Kept(all, outs) && x !in Dropped(all, outs)
  {
    if all != [] {
      KeptWithin(all[1..], outs[1..], x);
    }
  }

  /** The lives of the connections kept. */
  function KeptLives(outs: seq<Outcome>): seq<Life> {
    if outs == [] then [] else (if outs[0].Keep? then [outs[0].life] else []) + KeptLives(outs[1..])
  }

  /** What is decided for the connections still to come, and the buffer they leave. */
  predicate Planned(judge: Decider, fds: seq<int>, lives: seq<Life>, buf: Buffer, k: nat, todo: seq<Outcome>,
                    left: Buffer) {
    && |fds| == |lives|
    && todo == Decisions(judge, fds, lives, buf, k)
    && left == BufferAfter(judge, fds, lives, buf, k, |fds|)
  }

  lemma {:induction false} PlannedStep(judge: Decider, fds: seq<int>, lives: seq<Life>, buf: Buffer, k: nat,
                                       todo: seq<Outcome>, left: Buffer)
    requires Planned(judge, fds, lives, buf, k, todo, left) && fds != []
    ensures var d := judge(fds[0], lives[0], buf, k);
      todo != [] && todo[0] == d.outcome && Planned(judge, fds[1..], lives[1..], d.buf, k + 1, todo[1..], left)
  {
  }
}
