/**
 One producer and one consumer on a ring buffer, each using the index macros
 with whatever it last saw of the other side's index. The steps of the two
 interleave freely; a run is any sequence of steps.
 */
module RingProtocol {
  import opened Bits
  import opened Bytes
  import opened RingIndex

  /** What one side knows: the last value seen of the other's index, the run it
      was granted, and how much of that run it has used. */
  datatype Side = Side(seen: nat, granted: int, used: nat)

  /** Shared memory and the two sides; then the history: all bytes written, all
      bytes read, how many of them are published and released, and the counts
      behind the two indices last seen. */
  datatype State = State(
    buf: seq<byte>, head: nat, tail: nat, producer: Side, consumer: Side,
    produced: seq<byte>, consumed: seq<byte>, published: nat, released: nat,
    seenReleased: nat, seenPublished: nat)

  datatype Step =
    | ProducerLooks | ProducerGrants | Write(b: byte) | Publish
    | ConsumerLooks | ConsumerGrants | Read | Release

  function Advance(index: nat, n: nat, size: nat): nat
    requires size > 0
  {
    And(ToU32(index + n), size - 1)
  }

  function Init(buf: seq<byte>): State {
    State(buf, 0, 0, Side(0, 0, 0), Side(0, 0, 0), [], [], 0, 0, 0, 0)
  }

  function Next(s: State, step: Step): (t: State)
    requires |s.buf| > 0
    ensures |t.buf| == |s.buf|
  {
    var p, c := s.producer, s.consumer;
    match step
    case ProducerLooks =>
      s.(producer := p.(seen := s.tail), seenReleased := s.released)
    case ProducerGrants =>
      if p.granted != 0 then s
      else s.(producer := p.(granted := CircSpaceToEnd(s.head, p.seen, |s.buf|)))
    case Write(b) =>
      if !(p.used < p.granted && s.head + p.used < |s.buf|) then s
      else s.(buf := s.buf[s.head + p.used := b], produced := s.produced + [b], producer := p.(used := p.used + 1))
    case Publish =>
      s.(head := Advance(s.head, p.used, |s.buf|), published := s.published + p.used,
         producer := p.(granted := 0, used := 0))
    case ConsumerLooks =>
      s.(consumer := c.(seen := s.head), seenPublished := s.published)
    case ConsumerGrants =>
      if c.granted != 0 then s
      else s.(consumer := c.(granted := CircCntToEnd(c.seen, s.tail, |s.buf|)))
    case Read =>
      if !(c.used < c.granted && s.tail + c.used < |s.buf|) then s
      else s.(consumed := s.consumed + [s.buf[s.tail + c.used]], consumer := c.(used := c.used + 1))
    case Release =>
      s.(tail := Advance(s.tail, c.used, |s.buf|), released := s.released + c.used,
         consumer := c.(granted := 0, used := 0))
  }

  function Run(s: State, steps: seq<Step>): (t: State)
    requires |s.buf| > 0
    ensures |t.buf| == |s.buf|
    decreases |steps|
  {
    if steps == [] then s else Next(Run(s, steps[..|steps| - 1]), steps[|steps| - 1])
  }

  // ----- Positions -----

  /** The slot of item number m. */
  function Slot(m: nat, size: nat): (r: nat)
    requires size > 0
    ensures r < size
  {
    m % size
  }

  lemma {:induction false} SlotAdd(m: nat, d: nat, size: nat)
    requires size > 0 && Slot(m, size) + d < size
    ensures Slot(m + d, size) == Slot(m, size) + d
  {
    ModUnique(m + d, m % size + d, m / size, size);
  }

  /** Fewer than size apart means in different slots. */
  lemma {:induction false} SlotsDiffer(m: nat, n: nat, size: nat)
    requires size > 0 && m < n < m + size
    ensures Slot(m, size) != Slot(n, size)
  {
    var d := n / size - m / size;
    assert n - m == d * size + (n % size - m % size);
    if n % size == m % size {
      Multiple(d, size);
    }
  }

  lemma {:induction false} UsedIs(p: nat, c: nat, size: nat)
    requires size > 0 && c <= p < c + size
    ensures Used(Slot(p, size), Slot(c, size), size) == p - c
  {
    var d := p / size - c / size;
    assert p - c == d * size + (p % size - c % size);
    Multiple(d, size);
    Multiple(d - 1, size);
    assert d * size == (d - 1) * size + size;
  }

  lemma {:induction false} AdvanceIs(m: nat, d: nat, k: nat)
    requires k <= 31 && d <= Pow2(k)
    ensures Advance(Slot(m, Pow2(k)), d, Pow2(k)) == Slot(m + d, Pow2(k))
  {
    var size := Pow2(k);
    var r, q := m % size, m / size;
    assert m == r + q * size;
    MaskedWrap(r + d, k);
    assert m + d == (r + d) + q * size;
    ModAdd(r + d, q, size);
  }

  lemma {:induction false} AdvanceNear(index: nat, n: nat, k: nat)
    requires k <= 31 && index < Pow2(k) && n <= Pow2(k)
    ensures Advance(index, n, Pow2(k)) == if index + n < Pow2(k) then index + n else index + n - Pow2(k)
  {
    MaskedNear(index + n, k);
  }

  // ----- What every step keeps -----

  ghost predicate Indices(s: State, k: nat) {
    var size := Pow2(k);
    && k <= 31 && |s.buf| == size
    && s.head == Slot(s.published, size) && s.tail == Slot(s.released, size)
    && s.producer.seen == Slot(s.seenReleased, size) && s.consumer.seen == Slot(s.seenPublished, size)
  }

  /** The producer's run ends before anything unread, the consumer's before
      anything unpublished; both stay inside the buffer. */
  ghost predicate Counts(s: State) {
    && s.seenReleased <= s.released && s.seenPublished <= s.published
    && 0 <= s.producer.granted && s.producer.used <= s.producer.granted
    && (s.consumer.used == 0 || s.consumer.used <= s.consumer.granted)
    && s.published + s.producer.granted < s.seenReleased + |s.buf|
    && s.released + s.consumer.used <= s.seenPublished && s.released + s.consumer.granted <= s.seenPublished
    && s.head + s.producer.granted <= |s.buf| && s.tail + s.consumer.granted <= |s.buf|
    && |s.produced| == s.published + s.producer.used
    && |s.consumed| == s.released + s.consumer.used
  }

  ghost predicate Contents(s: State) {
    && |s.buf| > 0 && |s.consumed| <= |s.produced|
    && (forall m: nat {:trigger Slot(m, |s.buf|)} | s.released <= m < |s.produced| ::
          s.buf[Slot(m, |s.buf|)] == s.produced[m])
    && s.consumed == s.produced[..|s.consumed|]
  }

  ghost predicate Inv(s: State, k: nat) {
    Indices(s, k) && Counts(s) && Contents(s)
  }

  lemma {:induction false} InitInv(buf: seq<byte>, k: nat)
    requires k <= 31 && |buf| == Pow2(k)
    ensures Inv(Init(buf), k)
  {
    ModUnique(0, 0, 0, Pow2(k));
  }

  /** The run the producer is granted, in item counts. */
  lemma {:induction false} SpaceGranted(s: State, k: nat)
    requires Indices(s, k) && s.seenReleased <= s.published < s.seenReleased + Pow2(k)
    ensures CircSpaceToEnd(s.head, s.producer.seen, Pow2(k))
         == Min(s.seenReleased + Pow2(k) - 1 - s.published, Pow2(k) - s.head)
  {
    SpaceToEnd(s.head, s.producer.seen, k);
    UsedIs(s.published, s.seenReleased, Pow2(k));
  }

  /** The run the consumer is granted, in item counts; nothing when the macro overflows. */
  lemma {:induction false} CountGranted(released: nat, published: nat, k: nat)
    requires k <= 31 && released <= published < released + Pow2(k)
    ensures var seen, tail := Slot(published, Pow2(k)), Slot(released, Pow2(k));
      var n := CircCntToEnd(seen, tail, Pow2(k));
      if k < 31 || tail > 0 then n == Min(published - released, Pow2(k) - tail) else n < 0
  {
    var seen, tail := Slot(published, Pow2(k)), Slot(released, Pow2(k));
    CountToEnd(seen, tail, k);
    UsedIs(published, released, Pow2(k));
    if k == 31 && tail == 0 {
      CountToEndOverflows(seen);
    }
  }

  lemma {:induction false} ProducerGrantsInv(s: State, k: nat)
    requires Inv(s, k)
    ensures Inv(Next(s, ProducerGrants), k)
  {
    SpaceGranted(s, k);
  }

  lemma {:induction false} ConsumerGrantsInv(s: State, k: nat)
    requires Inv(s, k)
    ensures Inv(Next(s, ConsumerGrants), k)
  {
    CountGranted(s.released, s.seenPublished, k);
  }

  lemma {:induction false} WriteInv(s: State, b: byte, k: nat)
    requires Inv(s, k)
    ensures Inv(Next(s, Write(b)), k)
  {
    var t := Next(s, Write(b));
    var p, size := s.producer, Pow2(k);
    if t != s {
      var n := |s.produced|;
      SlotAdd(s.published, p.used, size);
      assert t.buf == s.buf[Slot(n, size) := b];
      forall m: nat | t.released <= m < |t.produced| ensures t.buf[Slot(m, |t.buf|)] == t.produced[m] {
        if m < n {
          SlotsDiffer(m, n, size);
        }
      }
    }
  }

  lemma {:induction false} ReadInv(s: State, k: nat)
    requires Inv(s, k)
    ensures Inv(Next(s, Read), k)
  {
    var t := Next(s, Read);
    if t != s {
      SlotAdd(s.released, s.consumer.used, Pow2(k));
      assert s.produced[..|s.consumed|] + [s.produced[|s.consumed|]] == s.produced[..|s.consumed| + 1];
    }
  }

  lemma {:induction false} PublishInv(s: State, k: nat)
    requires Inv(s, k)
    ensures Inv(Next(s, Publish), k)
  {
    AdvanceIs(s.published, s.producer.used, k);
  }

  lemma {:induction false} ReleaseInv(s: State, k: nat)
    requires Inv(s, k)
    ensures Inv(Next(s, Release), k)
  {
    AdvanceIs(s.released, s.consumer.used, k);
  }

  lemma {:induction false} StepInv(s: State, step: Step, k: nat)
    requires Inv(s, k)
    ensures Inv(Next(s, step), k)
  {
    match step
    case ProducerGrants => ProducerGrantsInv(s, k);
    case ConsumerGrants => ConsumerGrantsInv(s, k);
    case Write(b) => WriteInv(s, b, k);
    case Read => ReadInv(s, k);
    case Publish => PublishInv(s, k);
    case Release => ReleaseInv(s, k);
    case _ =>
  }

  lemma {:induction false} RunInv(buf: seq<byte>, steps: seq<Step>, k: nat)
    requires k <= 31 && |buf| == Pow2(k)
    ensures Inv(Run(Init(buf), steps), k)
    decreases |steps|
  {
    InitInv(buf, k);
    if steps != [] {
      RunInv(buf, steps[..|steps| - 1], k);
      StepInv(Run(Init(buf), steps[..|steps| - 1]), steps[|steps| - 1], k);
    }
  }

  // ----- The results -----

  /** A state of some run on a buffer of 2^k bytes. */
  ghost predicate Reachable(s: State, k: nat) {
    exists buf: seq<byte>, steps :: |buf| == Pow2(k) > 0 && Run(Init(buf), steps) == s
  }

  lemma {:induction false} ReachableInv(s: State, k: nat)
    requires k <= 31 && Reachable(s, k)
    ensures Inv(s, k)
  {
    var buf: seq<byte>, steps :| |buf| == Pow2(k) > 0 && Run(Init(buf), steps) == s;
    RunInv(buf, steps, k);
  }

  /** In every run, the bytes read are a prefix of the bytes written. */
  lemma {:induction false} ReadsArePrefix(s: State, k: nat)
    requires k <= 31 && Reachable(s, k)
    ensures s.consumed <= s.produced && s.released <= |s.consumed| <= s.published <= |s.produced|
  {
    ReachableInv(s, k);
  }

  /** In every run, every slot of the consumer's run holds the item it expects,
      published and not yet released. */
  lemma {:induction false} ConsumerRunIsUnread(s: State, k: nat, i: nat)
    requires k <= 31 && Reachable(s, k) && i < s.consumer.granted
    ensures s.tail + i < |s.buf| && s.released + i < s.published <= |s.produced|
    ensures s.buf[s.tail + i] == s.produced[s.released + i]
  {
    ReachableInv(s, k);
    SlotAdd(s.released, i, Pow2(k));
    assert s.tail + i == Slot(s.released + i, |s.buf|);
  }

  /** In every run, no slot of the producer's run holds an unread item. */
  lemma {:induction false} ProducerRunIsFree(s: State, k: nat, i: nat, m: nat)
    requires k <= 31 && Reachable(s, k) && i < s.producer.granted && s.released <= m < s.published
    ensures s.head + i < |s.buf| && s.head + i != Slot(m, |s.buf|)
  {
    ReachableInv(s, k);
    SlotAdd(s.published, i, Pow2(k));
    SlotsDiffer(m, s.published + i, Pow2(k));
  }

  // ----- Neither side is stuck -----

  lemma {:induction false} RunAppend(s: State, a: seq<Step>, b: seq<Step>)
    requires |s.buf| > 0
    ensures Run(s, a + b) == Run(Run(s, a), b)
    decreases |b|
  {
    if b == [] {
      assert a + b == a;
    } else {
      RunAppend(s, a, b[..|b| - 1]);
      assert (a + b)[..|a + b| - 1] == a + b[..|b| - 1];
    }
  }

  lemma {:induction false} RunStep(s: State, step: Step)
    requires |s.buf| > 0
    ensures Run(s, [step]) == Next(s, step)
  {
    assert [step][..0] == [] && Run(s, []) == s;
  }

  /** One step, then more. */
  lemma {:induction false} StepThen(s: State, step: Step, more: seq<Step>)
    requires |s.buf| > 0
    ensures Run(s, [step] + more) == Run(Next(s, step), more)
  {
    RunAppend(s, [step], more);
    RunStep(s, step);
  }

  /** A turn of three steps, then more. */
  lemma {:induction false} TurnThen(s: State, a: Step, b: Step, c: Step, run: seq<Step>, more: seq<Step>)
    requires |s.buf| > 0
    ensures Run(s, [a] + ([b] + ([c] + (run + more)))) == Run(Run(Next(Next(Next(s, a), b), c), run), more)
  {
    RunAppend(Next(Next(Next(s, a), b), c), run, more);
    StepThen(Next(Next(s, a), b), c, run + more);
    StepThen(Next(s, a), b, [c] + (run + more));
    StepThen(s, a, [b] + ([c] + (run + more)));
  }

  /** The consumer reads the run it is granted to its end. */
  lemma {:induction false} ReadsOn(s: State, k: nat) returns (steps: seq<Step>)
    requires Inv(s, k) && 0 <= s.consumer.granted - s.consumer.used
    ensures var t := Run(s, steps);
      Inv(t, k) && t.produced == s.produced && t.published == s.published && t.released == s.released
      && |t.consumed| == s.released + s.consumer.granted
    decreases s.consumer.granted - s.consumer.used
  {
    steps := [];
    if s.consumer.used < s.consumer.granted {
      ReadInv(s, k);
      steps := ReadsOn(Next(s, Read), k);
      StepThen(s, Read, steps);
      steps := [Read] + steps;
    }
  }

  /** One turn of the consumer: it gives back what it has read, looks, and is granted a run unless all is read. */
  lemma {:induction false} ConsumerTurn(s: State, k: nat) returns (t: State)
    requires Inv(s, k) && k < 31
    ensures t == Next(Next(Next(s, Release), ConsumerLooks), ConsumerGrants) && Inv(t, k)
    ensures t.produced == s.produced && t.consumed == s.consumed && t.published == s.published
    ensures t.released == |s.consumed| && t.consumer.used == 0 <= t.consumer.granted
    ensures |s.consumed| < s.published ==> t.consumer.granted > 0
  {
    var r := Next(s, Release);
    ReleaseInv(s, k);
    var l := Next(r, ConsumerLooks);
    StepInv(r, ConsumerLooks, k);
    t := ConsumerGranted(l, k);
  }

  lemma {:induction false} ConsumerGranted(s: State, k: nat) returns (t: State)
    requires Inv(s, k) && k < 31 && s.consumer.granted == 0 && s.released <= s.seenPublished
    ensures t == Next(s, ConsumerGrants) && Inv(t, k)
    ensures 0 <= t.consumer.granted && (s.released < s.seenPublished ==> t.consumer.granted > 0)
  {
    ConsumerGrantsInv(s, k);
    CountGranted(s.released, s.seenPublished, k);
    t := Next(s, ConsumerGrants);
  }

  /** Whatever has happened, the consumer alone can go on until it has read all that is published. */
  lemma {:induction false} AllCanBeRead(s: State, k: nat) returns (steps: seq<Step>)
    requires Inv(s, k) && k < 31
    ensures var t := Run(s, steps);
      Inv(t, k) && t.produced == s.produced && t.published == s.published && t.consumed == s.produced[..s.published]
    decreases s.published - |s.consumed|
  {
    steps := [];
    if |s.consumed| < s.published {
      var t := ConsumerTurn(s, k);
      var taken := ReadsOn(t, k);
      var u := Run(t, taken);
      var more := AllCanBeRead(u, k);
      TurnThen(s, Release, ConsumerLooks, ConsumerGrants, taken, more);
      steps := [Release] + ([ConsumerLooks] + ([ConsumerGrants] + (taken + more)));
    }
  }

  lemma {:induction false} Rejoined(p: seq<byte>, data: seq<byte>, n: nat)
    requires n <= |data|
    ensures p + data[..n] + data[n..] == p + data
  {
    assert data[..n] + data[n..] == data;
    Associate(p, data[..n], data[n..]);
  }

  lemma {:induction false} HeadRejoined(p: seq<byte>, data: seq<byte>)
    requires data != []
    ensures p + [data[0]] + data[1..] == p + data
  {
    assert data[..1] == [data[0]];
    Rejoined(p, data, 1);
  }

  lemma {:induction false} WriteOne(s: State, b: byte, k: nat) returns (t: State)
    requires Inv(s, k) && s.producer.used < s.producer.granted
    ensures t == Next(s, Write(b)) && Inv(t, k)
    ensures t.produced == s.produced + [b] && t.consumed == s.consumed && t.released == s.released
    ensures t.producer.granted - t.producer.used == s.producer.granted - s.producer.used - 1
  {
    WriteInv(s, b, k);
    t := Next(s, Write(b));
  }

  /** The producer writes data into the run it is granted. */
  lemma {:induction false} WritesOn(s: State, data: seq<byte>, k: nat) returns (steps: seq<Step>)
    requires Inv(s, k) && |data| <= s.producer.granted - s.producer.used
    ensures var t := Run(s, steps);
      Inv(t, k) && t.produced == s.produced + data && t.consumed == s.consumed && t.released == s.released
    decreases |data|
  {
    steps := [];
    assert s.produced + [] == s.produced;
    if data != [] {
      var t := WriteOne(s, data[0], k);
      steps := WritesOn(t, data[1..], k);
      StepThen(s, Write(data[0]), steps);
      steps := [Write(data[0])] + steps;
      HeadRejoined(s.produced, data);
    }
  }

  /** One turn of the producer: it publishes, looks, and is granted a run unless the buffer is full. */
  lemma {:induction false} ProducerTurn(s: State, k: nat) returns (t: State)
    requires Inv(s, k)
    ensures t == Next(Next(Next(s, Publish), ProducerLooks), ProducerGrants) && Inv(t, k)
    ensures t.produced == s.produced && t.consumed == s.consumed && t.released == s.released
    ensures t.published == |s.produced| && t.producer.used == 0
    ensures |s.produced| < s.released + |s.buf| - 1 ==> t.producer.granted > 0
  {
    var r := Next(s, Publish);
    PublishInv(s, k);
    var l := Next(r, ProducerLooks);
    StepInv(r, ProducerLooks, k);
    t := ProducerGranted(l, k);
  }

  lemma {:induction false} ProducerGranted(s: State, k: nat) returns (t: State)
    requires Inv(s, k) && s.producer.granted == 0
    ensures t == Next(s, ProducerGrants) && Inv(t, k)
    ensures s.published < s.seenReleased + |s.buf| - 1 ==> t.producer.granted > 0
  {
    ProducerGrantsInv(s, k);
    if s.published < s.seenReleased + |s.buf| - 1 {
      RoomGranted(s, k);
    }
    t := Next(s, ProducerGrants);
  }

  lemma {:induction false} RoomGranted(s: State, k: nat)
    requires Indices(s, k) && s.seenReleased <= s.published < s.seenReleased + |s.buf| - 1
    ensures CircSpaceToEnd(s.head, s.producer.seen, |s.buf|) > 0
  {
    SpaceGranted(s, k);
  }

  /** Whatever has happened, the producer alone can write as many bytes as leave one slot free. */
  lemma {:induction false} AllCanBeWritten(s: State, data: seq<byte>, k: nat) returns (steps: seq<Step>)
    requires Inv(s, k) && |s.produced| + |data| < s.released + |s.buf|
    ensures var t := Run(s, steps);
      Inv(t, k) && t.produced == s.produced + data && t.consumed == s.consumed
    decreases |data|
  {
    steps := [];
    assert s.produced + [] == s.produced;
    if data != [] {
      var t := ProducerTurn(s, k);
      var n := Min(|data|, t.producer.granted);
      var writes := WritesOn(t, data[..n], k);
      var u := Run(t, writes);
      var more := AllCanBeWritten(u, data[n..], k);
      TurnThen(s, Publish, ProducerLooks, ProducerGrants, writes, more);
      steps := [Publish] + ([ProducerLooks] + ([ProducerGrants] + (writes + more)));
      Rejoined(s.produced, data, n);
    }
  }

  /** The consumer is at the start of the buffer and has no run to read. */
  ghost predicate AtStart(s: State, k: nat) {
    Inv(s, k) && s.released == 0 && s.consumed == [] && s.consumer.used == 0 && s.consumer.granted <= 0
  }

  lemma {:induction false} StaysAtStart(s: State, step: Step)
    requires AtStart(s, 31)
    ensures AtStart(Next(s, step), 31)
  {
    StepInv(s, step, 31);
    if step.ConsumerGrants? {
      FirstSlot(31);
      CountGranted(0, s.seenPublished, 31);
    }
  }

  lemma {:induction false} FirstSlot(k: nat)
    ensures Slot(0, Pow2(k)) == 0
  {
    ModUnique(0, 0, 0, Pow2(k));
  }

  /** With a buffer of 2^31 bytes, where the size does not fit a signed int, the consumer
      never reads anything at all. */
  lemma {:induction false} NeverReads(buf: seq<byte>, steps: seq<Step>)
    requires |buf| == Pow2(31)
    ensures AtStart(Run(Init(buf), steps), 31) && Run(Init(buf), steps).consumed == []
    decreases |steps|
  {
    InitInv(buf, 31);
    if steps != [] {
      NeverReads(buf, steps[..|steps| - 1]);
      StaysAtStart(Run(Init(buf), steps[..|steps| - 1]), steps[|steps| - 1]);
    }
  }
}
