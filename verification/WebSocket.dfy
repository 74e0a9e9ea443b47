/**
 The websocket demo: a task that creates a library context, connects, serves
 the session and tears it down, steered by callbacks the library makes inside
 those calls. One round of the task's loop is one step.
 */
module WebSocket {
  import opened Bits
  import opened Bytes

  const WATCHDOG_LIMIT := 5

  datatype Phase = ExitSession | InitSession | SetUpSession | HandleSession

  /** What the library reports; sending says whether data waits to be written, and whether lws_write took it. */
  datatype Callback =
    | Established
    | ConnectionError
    | Closed
    | Writeable(sending: bool, written: bool)
    | Other

  datatype Event = Create(context: nat) | Destroy(context: nat)

  /** The session variables, the next handle the library will give out, the
      contexts created and destroyed so far, the connections a writeable callback was
      asked for, and whether the branch for an illegal context was ever taken. */
  datatype Session = Session(
    phase: Phase, context: Option<nat>, wsi: Option<nat>, watchDog: nat, oldTick: nat,
    nextHandle: nat, log: seq<Event>, asked: seq<Option<nat>>, illegal: bool)

  /** One round: whether the network is up, the clock, whether connecting succeeds,
      and the callbacks made inside the library call of the round. */
  datatype Round = Round(network: bool, now: nat, connects: bool, callbacks: seq<Callback>)

  function Init(): Session {
    Session(InitSession, None, None, 0, 0, 0, [], [], false)
  }

  // ----- lwsCallbackNotify -----

  function Notify(s: Session, c: Callback): Session {
    match c
    case Established => s.(phase := HandleSession)
    case ConnectionError => s.(phase := ExitSession)
    case Closed => s.(phase := ExitSession)
    case Writeable(sending, written) =>
      s.(watchDog := 0, phase := if sending && !written then ExitSession else s.phase)
    case Other => s
  }

  function Notified(s: Session, cs: seq<Callback>): Session {
    if cs == [] then s else Notify(Notified(s, cs[..|cs| - 1]), cs[|cs| - 1])
  }

  // ----- One round of lwsRecvTask -----

  function InitRound(s: Session, r: Round): Session {
    if !r.network then s
    else if s.context == None then
      var t := Notified(s, r.callbacks);
      t.(context := Some(s.nextHandle), log := s.log + [Create(s.nextHandle)], nextHandle := s.nextHandle + 1,
         phase := SetUpSession)
    else s.(illegal := true, phase := ExitSession)
  }

  function SetUpRound(s: Session, r: Round): Session {
    var t := Notified(s, r.callbacks);
    if !r.connects then t.(wsi := None, phase := ExitSession)
    else t.(wsi := Some(s.nextHandle), nextHandle := s.nextHandle + 1, phase := HandleSession)
  }

  predicate Ticks(s: Session, r: Round, hz: nat) {
    ToU32(r.now - s.oldTick) > hz
  }

  /** The clock part, before lws_service. */
  function Ticked(s: Session, r: Round, hz: nat): Session {
    if !Ticks(s, r, hz) then s
    else if !r.network then s.(phase := ExitSession)
    else
      var t := s.(oldTick := r.now, asked := s.asked + [s.wsi]);
      if s.watchDog > WATCHDOG_LIMIT then t.(phase := ExitSession) else t.(watchDog := s.watchDog + 1)
  }

  function HandleRound(s: Session, r: Round, hz: nat): Session {
    Notified(Ticked(s, r, hz), r.callbacks)
  }

  function ExitRound(s: Session, r: Round): Session {
    var t := if s.context == None then s
             else Notified(s, r.callbacks).(log := s.log + [Destroy(s.context.value)]);
    t.(context := None, wsi := None, watchDog := 0, phase := InitSession)
  }

  function Next(s: Session, r: Round, hz: nat): Session {
    match s.phase
    case InitSession => InitRound(s, r)
    case SetUpSession => SetUpRound(s, r)
    case HandleSession => HandleRound(s, r, hz)
    case ExitSession => ExitRound(s, r)
  }

  function Run(s: Session, rounds: seq<Round>, hz: nat): Session {
    if rounds == [] then s else Next(Run(s, rounds[..|rounds| - 1], hz), rounds[|rounds| - 1], hz)
  }

  // ----- The session invariant -----

  /** Contexts are created and destroyed by turns, each destroyed being the one created last. */
  predicate Alternates(log: seq<Event>) {
    forall i | 0 <= i < |log| :: InTurn(log, i)
  }

  predicate InTurn(log: seq<Event>, i: nat)
    requires i < |log|
  {
    if i % 2 == 0 then log[i].Create? else log[i] == Destroy(log[i - 1].context)
  }

  predicate Inv(s: Session) {
    && (s.phase.InitSession? <==> s.context == None)
    && (s.phase.HandleSession? ==> s.wsi != None)
    && (s.phase.InitSession? || s.phase.SetUpSession? ==> s.wsi == None)
    && s.watchDog <= WATCHDOG_LIMIT + 1
    && (s.phase.InitSession? || s.phase.SetUpSession? ==> s.watchDog == 0)
    && !s.illegal && None !in s.asked
    && Alternates(s.log)
    && (if s.context == None then |s.log| % 2 == 0
        else |s.log| % 2 == 1 && s.log[|s.log| - 1] == Create(s.context.value))
  }

  /** Callbacks touch nothing but the phase and the watchdog, and never lead back to the start. */
  lemma {:induction false} NotifiedKeeps(s: Session, cs: seq<Callback>)
    ensures var t := Notified(s, cs);
      && t == s.(phase := t.phase, watchDog := t.watchDog)
      && (t.watchDog == s.watchDog || t.watchDog == 0)
      && (t.phase == s.phase || t.phase.HandleSession? || t.phase.ExitSession?)
  {
    if cs != [] {
      NotifiedKeeps(s, cs[..|cs| - 1]);
    }
  }

  lemma {:induction false} LogGrows(log: seq<Event>, e: Event)
    requires Alternates(log)
    requires if |log| % 2 == 0 then e.Create? else e == Destroy(log[|log| - 1].context)
    ensures Alternates(log + [e])
  {
    forall i | 0 <= i < |log + [e]| ensures InTurn(log + [e], i) {
      assert i < |log| ==> InTurn(log, i);
    }
  }

  lemma {:induction false} NextInv(s: Session, r: Round, hz: nat)
    requires Inv(s)
    ensures Inv(Next(s, r, hz))
  {
    match s.phase
    case InitSession =>
      NotifiedKeeps(s, r.callbacks);
      LogGrows(s.log, Create(s.nextHandle));
    case SetUpSession =>
      NotifiedKeeps(s, r.callbacks);
    case HandleSession =>
      NotifiedKeeps(Ticked(s, r, hz), r.callbacks);
    case ExitSession =>
      NotifiedKeeps(s, r.callbacks);
      LogGrows(s.log, Destroy(s.context.value));
  }

  lemma {:induction false} RunInv(s: Session, rounds: seq<Round>, hz: nat)
    requires Inv(s)
    ensures Inv(Run(s, rounds, hz))
  {
    if rounds != [] {
      RunInv(s, rounds[..|rounds| - 1], hz);
      NextInv(Run(s, rounds[..|rounds| - 1], hz), rounds[|rounds| - 1], hz);
    }
  }

  /**
   At the head of the loop, whatever the library reported: no context exactly at
   the start of a session, both handles while serving one, and the branch for an
   illegal context is dead.
   */
  lemma {:induction false} SessionIsSafe(rounds: seq<Round>, hz: nat)
    ensures var s := Run(Init(), rounds, hz);
      && (s.phase.InitSession? <==> s.context == None)
      && (s.phase.HandleSession? ==> s.context != None && s.wsi != None)
      && s.watchDog <= 6 && !s.illegal
  {
    RunInv(Init(), rounds, hz);
  }

  /** Contexts come and go one at a time, and none is destroyed twice or left behind. */
  lemma {:induction false} ContextsAlternate(rounds: seq<Round>, hz: nat)
    ensures var s := Run(Init(), rounds, hz);
      && Alternates(s.log)
      && (s.context == None <==> |s.log| % 2 == 0)
      && (s.context != None ==> s.log[|s.log| - 1] == Create(s.context.value))
  {
    RunInv(Init(), rounds, hz);
  }

  /** Leaving a session destroys its context, with the next round back at the start. */
  lemma {:induction false} ExitDestroys(rounds: seq<Round>, r: Round, hz: nat)
    requires Run(Init(), rounds, hz).phase.ExitSession?
    ensures var s := Run(Init(), rounds, hz); var t := Next(s, r, hz);
      && s.context != None && t.log == s.log + [Destroy(s.context.value)]
      && t == Session(InitSession, None, None, 0, s.oldTick, s.nextHandle, t.log, s.asked, false)
  {
    RunInv(Init(), rounds, hz);
    NotifiedKeeps(Run(Init(), rounds, hz), r.callbacks);
  }

  // ----- The watchdog -----

  /** The phase the last steering callback leaves behind, if there is one. */
  function Steered(cs: seq<Callback>): Option<Phase> {
    if cs == [] then None
    else
      match cs[|cs| - 1]
      case Established => Some(HandleSession)
      case ConnectionError => Some(ExitSession)
      case Closed => Some(ExitSession)
      case Writeable(sending, written) => if sending && !written then Some(ExitSession) else Steered(cs[..|cs| - 1])
      case Other => Steered(cs[..|cs| - 1])
  }

  lemma {:induction false} NotifiedPhase(s: Session, cs: seq<Callback>)
    ensures Notified(s, cs).phase == match Steered(cs) case None => s.phase case Some(p) => p
  {
    if cs != [] {
      NotifiedPhase(s, cs[..|cs| - 1]);
    }
  }

  lemma {:induction false} SteeredTo(cs: seq<Callback>)
    ensures Steered(cs) in {None, Some(HandleSession), Some(ExitSession)}
  {
    if cs != [] {
      SteeredTo(cs[..|cs| - 1]);
    }
  }

  /**
   A session being served ends with the round exactly when the last steering
   callback says so, or, with none, when a tick finds the network gone or six
   ticks counted already.
   */
  lemma {:induction false} SessionEnds(s: Session, r: Round, hz: nat)
    requires Inv(s) && s.phase.HandleSession?
    ensures Next(s, r, hz).phase.ExitSession? || Next(s, r, hz).phase.HandleSession?
    ensures Next(s, r, hz).phase.ExitSession?
       <==> match Steered(r.callbacks)
            case Some(p) => p.ExitSession?
            case None => Ticks(s, r, hz) && (!r.network || s.watchDog == 6)
  {
    NotifiedPhase(Ticked(s, r, hz), r.callbacks);
    SteeredTo(r.callbacks);
  }

  /**
   With six ticks counted, the next one ends the session, unless a callback in
   the service call of the same round says, as the last word, that the
   connection is established.
   */
  lemma {:induction false} SeventhTick(s: Session, r: Round, hz: nat)
    requires Inv(s) && s.phase.HandleSession? && s.watchDog == 6 && Ticks(s, r, hz)
    ensures Next(s, r, hz).phase.ExitSession? <==> Steered(r.callbacks) != Some(HandleSession)
  {
    SessionEnds(s, r, hz);
    SteeredTo(r.callbacks);
  }

  lemma {:induction false} RunOne(s: Session, rounds: seq<Round>, r: Round, hz: nat)
    ensures Run(s, rounds + [r], hz) == Next(Run(s, rounds, hz), r, hz)
  {
    assert (rounds + [r])[..|rounds|] == rounds;
  }

  /** A run to a session being served for n ticks without a word from the peer. */
  lemma {:induction false} ServedFor(n: nat, hz: nat) returns (rounds: seq<Round>)
    requires n <= 6 && hz + 1 < U32
    ensures Run(Init(), rounds, hz).phase.HandleSession? && Run(Init(), rounds, hz).watchDog == n
  {
    if n == 0 {
      var r := Round(true, 0, true, []);
      rounds := [r] + [r];
      RunOne(Init(), [], r, hz);
      RunOne(Init(), [r], r, hz);
      assert [] + [r] == [r];
    } else {
      rounds := ServedFor(n - 1, hz);
      var r := Round(true, Run(Init(), rounds, hz).oldTick + hz + 1, true, []);
      RunOne(Init(), rounds, r, hz);
      rounds := rounds + [r];
    }
  }

  /** A run whose seventh tick does not end the session: the connection is reported established in the same round. */
  lemma {:induction false} SeventhTickSurvived(hz: nat) returns (rounds: seq<Round>, r: Round)
    requires hz + 1 < U32
    ensures var s := Run(Init(), rounds, hz);
      s.phase.HandleSession? && s.watchDog == 6 && Ticks(s, r, hz) && Next(s, r, hz).phase.HandleSession?
  {
    rounds := ServedFor(6, hz);
    r := Round(true, Run(Init(), rounds, hz).oldTick + hz + 1, true, [Established]);
    RunInv(Init(), rounds, hz);
    SeventhTick(Run(Init(), rounds, hz), r, hz);
  }

  /** No word from the peer: neither writeable nor established. */
  predicate Quiet(cs: seq<Callback>) {
    forall c | c in cs :: !c.Writeable? && !c.Established?
  }

  lemma {:induction false} QuietKeeps(s: Session, cs: seq<Callback>)
    requires Quiet(cs)
    ensures Notified(s, cs).watchDog == s.watchDog && (Notified(s, cs).phase.HandleSession? ==> s.phase.HandleSession?)
  {
    if cs != [] {
      QuietKeeps(s, cs[..|cs| - 1]);
    }
  }

  /** The clock shows more than hz behind the tick taken last, in 32 bits, and the network is up. */
  predicate TakesTick(s: Session, r: Round, hz: nat) {
    s.phase.HandleSession? && r.network && (r.now - s.oldTick) % 0x1_0000_0000 > hz
  }

  /** The ticks taken. */
  function TickCount(s: Session, rounds: seq<Round>, hz: nat): nat {
    if rounds == [] then 0
    else
      var before := rounds[..|rounds| - 1];
      TickCount(s, before, hz) + if TakesTick(Run(s, before, hz), rounds[|rounds| - 1], hz) then 1 else 0
  }

  /** The session is being served at the head of every round and after the last. */
  predicate Serving(s: Session, rounds: seq<Round>, hz: nat) {
    Run(s, rounds, hz).phase.HandleSession? && (rounds == [] || Serving(s, rounds[..|rounds| - 1], hz))
  }

  /** While it is served with no word from the peer, the watchdog counts the ticks: there are at most six. */
  lemma {:induction false} WatchDogCounts(s: Session, rounds: seq<Round>, hz: nat)
    requires Inv(s) && Serving(s, rounds, hz) && forall r | r in rounds :: Quiet(r.callbacks)
    ensures Run(s, rounds, hz).watchDog == s.watchDog + TickCount(s, rounds, hz) <= 6
  {
    if rounds != [] {
      var before, r := rounds[..|rounds| - 1], rounds[|rounds| - 1];
      WatchDogCounts(s, before, hz);
      assert r in rounds;
      QuietKeeps(Ticked(Run(s, before, hz), r, hz), r.callbacks);
    }
    RunInv(s, rounds, hz);
  }

  // ----- Ticks and the clock -----

  /** A tick that is taken is kept for the next, in whatever phase it leaves the session; nothing else changes it. */
  lemma {:induction false} TickKept(s: Session, r: Round, hz: nat)
    ensures Next(s, r, hz).oldTick == if TakesTick(s, r, hz) then r.now else s.oldTick
  {
    NotifiedKeeps(s, r.callbacks);
    NotifiedKeeps(Ticked(s, r, hz), r.callbacks);
  }

  /** Each tick taken asks for a writeable callback, always with a connection to ask for, and nothing else does. */
  lemma {:induction false} TicksAsk(rounds: seq<Round>, hz: nat)
    ensures |Run(Init(), rounds, hz).asked| == TickCount(Init(), rounds, hz)
    ensures None !in Run(Init(), rounds, hz).asked
  {
    RunInv(Init(), rounds, hz);
    AskedCount(Init(), rounds, hz);
  }

  lemma {:induction false} AskedCount(s: Session, rounds: seq<Round>, hz: nat)
    ensures |Run(s, rounds, hz).asked| == |s.asked| + TickCount(s, rounds, hz)
  {
    if rounds != [] {
      var before, r := rounds[..|rounds| - 1], rounds[|rounds| - 1];
      AskedCount(s, before, hz);
      AskedNext(Run(s, before, hz), r, hz);
    }
  }

  lemma {:induction false} AskedNext(s: Session, r: Round, hz: nat)
    ensures Next(s, r, hz).asked == s.asked + if TakesTick(s, r, hz) then [s.wsi] else []
  {
    NotifiedKeeps(s, r.callbacks);
    NotifiedKeeps(Ticked(s, r, hz), r.callbacks);
    assert s.asked + [] == s.asked;
  }

  /** The clock does not run backwards. */
  predicate Forward(from: nat, rounds: seq<Round>) {
    && (forall i | 0 <= i < |rounds| :: from <= rounds[i].now)
    && (forall i, j | 0 <= i < j < |rounds| :: rounds[i].now <= rounds[j].now)
  }

  /** A tick is taken in round i. */
  predicate TickAt(s: Session, rounds: seq<Round>, hz: nat, i: nat) {
    i < |rounds| && TakesTick(Run(s, rounds[..i], hz), rounds[i], hz)
  }

  /** A tick is kept until the next one. */
  lemma {:induction false} TickStays(s: Session, rounds: seq<Round>, hz: nat, i: nat, j: nat)
    requires TickAt(s, rounds, hz, i) && i < j <= |rounds| && Forward(s.oldTick, rounds)
    ensures rounds[i].now <= Run(s, rounds[..j], hz).oldTick <= rounds[j - 1].now
  {
    var before := rounds[..j - 1];
    assert rounds[..j][..j - 1] == before;
    TickKept(Run(s, before, hz), rounds[j - 1], hz);
    if i < j - 1 {
      TickStays(s, rounds, hz, i, j - 1);
    }
  }

  /** Two ticks lie more than hz apart, however often the loop goes round in between. */
  lemma {:induction false} TicksApart(s: Session, rounds: seq<Round>, hz: nat, i: nat, j: nat)
    requires TickAt(s, rounds, hz, i) && TickAt(s, rounds, hz, j) && i < j && Forward(s.oldTick, rounds)
    ensures rounds[j].now - rounds[i].now > hz
  {
    TickStays(s, rounds, hz, i, j);
    Remainder(rounds[j].now - Run(s, rounds[..j], hz).oldTick);
  }

  lemma {:induction false} Remainder(x: nat)
    ensures x % 0x1_0000_0000 <= x
  {
  }

  /** All ticks of a run lie within the time that has passed. */
  lemma {:induction false} TicksTakeTime(s: Session, rounds: seq<Round>, hz: nat)
    requires rounds != [] && Forward(s.oldTick, rounds)
    ensures s.oldTick + TickCount(s, rounds, hz) * (hz + 1)
         <= Run(s, rounds, hz).oldTick <= rounds[|rounds| - 1].now
  {
    var before, r := rounds[..|rounds| - 1], rounds[|rounds| - 1];
    var t := Run(s, before, hz);
    if before == [] {
      assert TickCount(s, before, hz) == 0 && t == s;
    } else {
      TicksTakeTime(s, before, hz);
      assert before[|before| - 1] == rounds[|before| - 1];
    }
    TickKept(t, r, hz);
    if TakesTick(t, r, hz) {
      Remainder(r.now - t.oldTick);
      OneMoreTick(TickCount(s, before, hz), hz + 1);
    }
  }

  lemma {:induction false} OneMoreTick(n: nat, d: nat)
    ensures (n + 1) * d == n * d + d
  {
  }

  /** So they are no more than the time that has passed allows, divided by hz + 1. */
  lemma {:induction false} TicksBounded(s: Session, rounds: seq<Round>, hz: nat)
    requires rounds != [] && Forward(s.oldTick, rounds)
    ensures TickCount(s, rounds, hz) <= (rounds[|rounds| - 1].now - s.oldTick) / (hz + 1)
  {
    TicksTakeTime(s, rounds, hz);
    Quotient(TickCount(s, rounds, hz), rounds[|rounds| - 1].now - s.oldTick, hz + 1);
  }

  lemma {:induction false} Quotient(n: nat, x: nat, d: nat)
    requires d > 0 && n * d <= x
    ensures n <= x / d
  {
    AtMost(n, x / d, x % d, d);
  }

  lemma {:induction false} AtMost(n: nat, q: nat, m: nat, d: nat)
    requires n * d <= q * d + m && m < d
    ensures n <= q
  {
    if n > q {
      TimesMore(q + 1, n, d);
      OneMoreTick(q, d);
      assert false;
    }
  }

  lemma {:induction false} TimesMore(a: nat, b: nat, d: nat)
    requires a <= b
    ensures a * d <= b * d
  {
  }

  // ----- Phase by phase -----

  /** At the start of a session nothing happens while the network is down; once it is up a context is created. */
  lemma {:induction false} StartsWhen(s: Session, r: Round, hz: nat)
    requires Inv(s) && s.phase.InitSession?
    ensures var t := Next(s, r, hz);
      && (t.phase.SetUpSession? <==> r.network)
      && (!r.network ==> t == s)
      && (r.network ==> t.context.Some? && t.log == s.log + [Create(t.context.value)] && t.wsi == None)
  {
    NotifiedKeeps(s, r.callbacks);
  }

  /** The session set up is served when connecting succeeds, with a handle of its own; when it fails,
      the next round destroys the context, and all starts afresh. */
  lemma {:induction false} ServedOrDestroyed(s: Session, r: Round, q: Round, hz: nat)
    requires Inv(s) && s.phase.SetUpSession?
    ensures var t := Next(s, r, hz); var u := Next(t, q, hz);
      && t.phase == (if r.connects then HandleSession else ExitSession)
      && (r.connects ==> t.wsi.Some? && t.context == s.context && t.log == s.log)
      && (!r.connects ==>
            s.context.Some? && u.log == s.log + [Destroy(s.context.value)]
            && u.phase.InitSession? && u.context == None)
  {
    NotifiedKeeps(s, r.callbacks);
    NotifiedKeeps(Next(s, r, hz), q.callbacks);
  }

  /** A writeable callback winds the watchdog up again, and no other does. */
  lemma {:induction false} WoundUp(s: Session, cs: seq<Callback>)
    ensures Notified(s, cs).watchDog == if exists c :: c in cs && c.Writeable? then 0 else s.watchDog
  {
    if cs != [] {
      var before := cs[..|cs| - 1];
      WoundUp(s, before);
      assert cs == before + [cs[|cs| - 1]];
      assert forall c :: c in cs <==> c in before || c == cs[|cs| - 1];
    }
  }

  /** The callbacks that end a session: an error, a closed connection, a write that fails. */
  predicate Ending(c: Callback) {
    c.ConnectionError? || c.Closed? || c == Writeable(true, false)
  }

  /** Callback i ends the session, and none behind it reports it established. */
  predicate EndsAt(cs: seq<Callback>, i: nat) {
    i < |cs| && Ending(cs[i]) && forall j | i < j < |cs| :: !cs[j].Established?
  }

  /** Callback i reports the session established, and none behind it ends it. */
  predicate EstablishesAt(cs: seq<Callback>, i: nat) {
    i < |cs| && cs[i].Established? && forall j | i < j < |cs| :: !Ending(cs[j])
  }

  /** The session is steered by the last callback that ends it or reports it established. */
  lemma {:induction false} SteeredMeans(cs: seq<Callback>)
    ensures Steered(cs) == Some(ExitSession) <==> exists i :: EndsAt(cs, i)
    ensures Steered(cs) == Some(HandleSession) <==> exists i :: EstablishesAt(cs, i)
  {
    SteeredTo(cs);
    var i := LastWord(cs);
    if i < |cs| {
      assert if Ending(cs[i]) then EndsAt(cs, i) else EstablishesAt(cs, i);
    }
  }

  /** Where it is, or the end of the list when there is none. */
  lemma {:induction false} LastWord(cs: seq<Callback>) returns (i: nat)
    ensures i <= |cs|
    ensures i < |cs| ==> (Ending(cs[i]) || cs[i].Established?)
    ensures forall j | (if i < |cs| then i < j else 0 <= j) && j < |cs| :: !Ending(cs[j]) && !cs[j].Established?
    ensures Steered(cs) == if i == |cs| then None else Some(if Ending(cs[i]) then ExitSession else HandleSession)
  {
    if cs == [] {
      return 0;
    }
    var before, last := cs[..|cs| - 1], cs[|cs| - 1];
    if Ending(last) || last.Established? {
      return |cs| - 1;
    }
    i := LastWord(before);
    assert forall j | 0 <= j < |before| :: cs[j] == before[j];
    if i == |before| {
      i := |cs|;
    }
  }
}
