/**
 The code of the websocket demo: the callback and the receive task, over the
 variables they share. A library call is the callbacks it makes; rounds gives
 what each pass of the loop meets, so the endless loop ends with its list.
 */
module WebSocketTask {
  import opened Bits
  import opened Bytes
  import opened WebSocket

  class LwsClient {
    var nowState: Phase
    var lwscontext: Option<nat>
    var wsContext: Option<nat>
    var watchDog: nat
    var oldTick: nat
    var nextHandle: nat
    ghost var log: seq<Event>
    ghost var asked: seq<Option<nat>>
    ghost var illegal: bool

    ghost function View(): Session
      reads this
    {
      Session(nowState, lwscontext, wsContext, watchDog, oldTick, nextHandle, log, asked, illegal)
    }

    constructor ()
      ensures View() == Init()
    {
      nowState, lwscontext, wsContext, watchDog, oldTick, nextHandle := InitSession, None, None, 0, 0, 0;
      log, asked, illegal := [], [], false;
    }

    method CallbackNotify(reason: Callback)
      modifies this
      ensures View() == Notify(old(View()), reason)
    {
      match reason
      case Established => nowState := HandleSession;
      case ConnectionError => nowState := ExitSession;
      case Closed => nowState := ExitSession;
      case Writeable(sending, written) =>
        watchDog := 0;
        if sending {
          if !written {
            nowState := ExitSession;
          }
        }
      case Other =>
    }

    /** What a library call does to the session: its callbacks, in order. */
    method LibraryCall(callbacks: seq<Callback>)
      modifies this
      ensures View() == Notified(old(View()), callbacks)
    {
      var i := 0;
      while i < |callbacks|
        invariant i <= |callbacks| && View() == Notified(old(View()), callbacks[..i])
      {
        assert callbacks[..i + 1][..i] == callbacks[..i];
        CallbackNotify(callbacks[i]);
        i := i + 1;
      }
      assert callbacks[..i] == callbacks;
    }

    method NewHandle() returns (h: nat)
      modifies this`nextHandle
      ensures h == old(nextHandle) && nextHandle == h + 1
    {
      h := nextHandle;
      nextHandle := nextHandle + 1;
    }

    method Start(r: Round)
      requires nowState.InitSession?
      modifies this
      ensures View() == InitRound(old(View()), r)
    {
      if r.network {
        if lwscontext == None {
          LibraryCall(r.callbacks);
          NotifiedKeeps(old(View()), r.callbacks);
          var h := NewHandle();
          lwscontext := Some(h);
          log := log + [Create(h)];
          nowState := SetUpSession;
        } else {
          illegal := true;
          nowState := ExitSession;
        }
      }
    }

    method SetUp(r: Round)
      requires nowState.SetUpSession?
      modifies this
      ensures View() == SetUpRound(old(View()), r)
    {
      LibraryCall(r.callbacks);
      NotifiedKeeps(old(View()), r.callbacks);
      wsContext := None;
      if r.connects {
        var h := NewHandle();
        wsContext := Some(h);
      }
      if wsContext == None {
        nowState := ExitSession;
      } else {
        nowState := HandleSession;
      }
    }

    /** lws_callback_on_writable */
    method CallbackOnWritable(wsi: Option<nat>)
      modifies this`asked
      ensures asked == old(asked) + [wsi]
    {
      asked := asked + [wsi];
    }

    method Handle(r: Round, hz: nat)
      requires nowState.HandleSession?
      modifies this
      ensures View() == HandleRound(old(View()), r, hz)
    {
      if ToU32(r.now - oldTick) > hz {
        if r.network {
          CallbackOnWritable(wsContext);
          if watchDog > WATCHDOG_LIMIT {
            nowState := ExitSession;
          } else {
            watchDog := watchDog + 1;
          }
          oldTick := r.now;
        } else {
          nowState := ExitSession;
        }
      }
      LibraryCall(r.callbacks);
    }

    method Exit(r: Round)
      requires nowState.ExitSession?
      modifies this
      ensures View() == ExitRound(old(View()), r)
    {
      NotifiedKeeps(View(), r.callbacks);
      if lwscontext != None {
        LibraryCall(r.callbacks);
        log := log + [Destroy(lwscontext.value)];
      }
      lwscontext := None;
      wsContext := None;
      watchDog := 0;
      nowState := InitSession;
    }

    /** The loop, over any rounds: it computes the run of the machine, and the session invariant holds at every head. */
    method RecvTask(rounds: seq<Round>, hz: nat)
      requires Inv(View())
      modifies this
      ensures View() == Run(old(View()), rounds, hz) && Inv(View())
    {
      var i := 0;
      while i < |rounds|
        invariant i <= |rounds| && View() == Run(old(View()), rounds[..i], hz) && Inv(View())
      {
        assert rounds[..i + 1][..i] == rounds[..i];
        NextInv(View(), rounds[i], hz);
        match nowState {
          case InitSession => Start(rounds[i]);
          case SetUpSession => SetUp(rounds[i]);
          case HandleSession => Handle(rounds[i], hz);
          case ExitSession => Exit(rounds[i]);
        }
        i := i + 1;
      }
      assert rounds[..i] == rounds;
    }
  }
}
