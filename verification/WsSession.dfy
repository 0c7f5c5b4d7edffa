/**
 The session loop of Demo/wm_websockets_demo.c:76-119 and 152-249. One iteration of the endless loop
 is a step; whatever happens inside a library call (callbacks, and the sending task running
 meanwhile) is an arbitrary list of events. `calls` records the library calls in order.
*/
module WsSession {
  import opened Arith
  import opened Wrappers
  const HZ := 500

  datatype Phase = ExitSession | InitSession | SetUpSession | HandleSession

  /** What can happen during a library call. */
  datatype Event =
    | Established | ConnectionError | Closed | Receive | Other
    | Writeable(written: int, inside: seq<Event>)  // what lws_write would return, and what happens inside it
    | Queue                                        // the sending task calls demoLwsSend

  datatype Call =
    | Create(id: nat) | CreateFailed | Connect(context: Option<nat>) | Service(context: Option<nat>)
    | Destroy(id: nat) | Write(toSocket: bool) | Illegal

  datatype Session = Session(
    now: Phase, context: Option<nat>, connInfo: Option<nat>, socket: bool, watchDog: nat, pending: bool,
    oldTick: nat, made: nat, calls: seq<Call>)

  /** What the outside world does during one iteration. */
  datatype World = World(networkOk: bool, createOk: bool, connectOk: bool, tick: nat,
                         before: seq<Event>, during: seq<Event>, asking: seq<Event>)

  const START := Session(InitSession, None, None, false, 0, false, 0, 0, [])

  /** lwsCallbackNotify, and demoLwsSend run by the other task. */
  function Notify(s: Session, e: Event): Session
    decreases e
  {
    match e
    case Established => s.(now := HandleSession)
    case ConnectionError => s.(now := ExitSession)
    case Closed => s.(now := ExitSession)
    case Receive => s
    case Other => s
    case Writeable(n, inside) =>
      if s.pending then
        var r := NotifyAll(Writing(s), inside);
        r.(pending := false, now := if n <= 0 then ExitSession else r.now)
      else s.(watchDog := 0)
    case Queue => if s.socket then s.(pending := true) else s
  }

  /** The state inside lws_write: the message counts as queued until the call returns. */
  function Writing(s: Session): Session {
    s.(watchDog := 0, calls := s.calls + [Write(s.socket)])
  }

  function NotifyAll(s: Session, es: seq<Event>): Session
    decreases es
  {
    if es == [] then s else NotifyAll(Notify(s, es[0]), es[1..])
  }

  predicate Elapsed(s: Session, w: World) {
    (w.tick - s.oldTick) % U32 > HZ
  }

  /** The sending task may run between two iterations. */
  function Queued(s: Session, es: seq<Event>): Session {
    if Queue in es && s.socket then s.(pending := true) else s
  }

  function Iterate(s0: Session, w: World): Session {
    var s := Queued(s0, w.before);
    match s.now
    case InitSession =>
      if !w.networkOk then s
      else if s.context.Some? then s.(now := ExitSession, calls := s.calls + [Illegal])
      else
        var call := if w.createOk then Create(s.made) else CreateFailed;
        var r := NotifyAll(s.(calls := s.calls + [call]), w.during);
        var c := if w.createOk then Some(s.made) else None;
        r.(context := c, connInfo := c, made := s.made + 1, now := SetUpSession)
    case SetUpSession =>
      var r := NotifyAll(s.(calls := s.calls + [Connect(s.connInfo)]), w.during);
      r.(socket := w.connectOk, now := if w.connectOk then HandleSession else ExitSession)
    case HandleSession =>
      var checked :=
        if !Elapsed(s, w) then s
        else if !w.networkOk then s.(now := ExitSession)
        else
          var r := NotifyAll(s, w.asking);
          if r.watchDog > 5 then r.(now := ExitSession, oldTick := w.tick % U32)
          else r.(watchDog := r.watchDog + 1, oldTick := w.tick % U32);
      NotifyAll(checked.(calls := checked.calls + [Service(checked.context)]), w.during)
    case ExitSession =>
      var r := if s.context.Some?
               then NotifyAll(s.(calls := s.calls + [Destroy(s.context.value)]), w.during) else s;
      r.(context := None, socket := false, watchDog := 0, now := InitSession)
  }

  function Run(s: Session, ws: seq<World>): Session
    decreases |ws|
  {
    if ws == [] then s else Run(Iterate(s, ws[0]), ws[1..])
  }

  lemma QueuedFirst(s: Session, w: World)
    ensures Iterate(s, w) == Iterate(Queued(s, w.before), w.(before := []))
  {
    hide NotifyAll;
  }

  // ---------- the loop with its variables ----------

  class RecvTask {
    var now: Phase
    var context: Option<nat>
    var connInfo: Option<nat>
    var socket: bool
    var watchDog: nat
    var pending: bool
    var oldTick: nat
    var made: nat  // names the contexts that lws_create_context returns
    ghost var calls: seq<Call>

    constructor ()
      ensures State() == START
    {
      now, context, connInfo, socket := InitSession, None, None, false;
      watchDog, pending, oldTick := 0, false, 0;
      made, calls := 0, [];
    }

    ghost function State(): Session
      reads this
    {
      Session(now, context, connInfo, socket, watchDog, pending, oldTick, made, calls)
    }

    method Callback(e: Event)
      modifies this
      ensures State() == Notify(old(State()), e)
      decreases e, 0
    {
      match e {
        case Established => now := HandleSession;
        case ConnectionError => now := ExitSession;
        case Closed => now := ExitSession;
        case Receive =>
        case Other =>
        case Writeable(n, inside) =>
          watchDog := 0;
          if pending {
            calls := calls + [Write(socket)];
            Callbacks(inside);
            if n <= 0 {
              now := ExitSession;
            }
            pending := false;
          }
        case Queue =>
          if socket {
            pending := true;
          }
      }
    }

    method Callbacks(es: seq<Event>)
      modifies this
      ensures State() == NotifyAll(old(State()), es)
      decreases es, 1
    {
      var i := 0;
      while i < |es|
        invariant 0 <= i <= |es|
        invariant NotifyAll(State(), es[i..]) == NotifyAll(old(State()), es)
      {
        assert es[i..][0] == es[i] && es[i..][1..] == es[i + 1..];
        Callback(es[i]);
        i := i + 1;
      }
    }

    /** The HANDLE_SESSION case. */
    method Handle(w: World)
      requires now == HandleSession
      modifies this
      ensures State() == Iterate(old(State()), w.(before := []))
    {
      hide NotifyAll;
      if (w.tick - oldTick) % U32 > HZ {
        if w.networkOk {
          Callbacks(w.asking);
          if watchDog > 5 {
            now := ExitSession;
          } else {
            watchDog := watchDog + 1;
          }
          oldTick := w.tick % U32;
        } else {
          now := ExitSession;
        }
      }
      calls := calls + [Service(context)];
      Callbacks(w.during);
    }

    /** The INIT_SESSION case. */
    method SetUpContext(w: World)
      requires now == InitSession
      modifies this
      ensures State() == Iterate(old(State()), w.(before := []))
    {
      hide NotifyAll;
      if w.networkOk {
        if context.None? {
          var id := made;
          calls := calls + [if w.createOk then Create(id) else CreateFailed];
          Callbacks(w.during);
          context := if w.createOk then Some(id) else None;
          made := id + 1;
          connInfo := context;
          now := SetUpSession;
        } else {
          calls := calls + [Illegal];
          now := ExitSession;
        }
      }
    }

    /** The SET_UP_SESSION case. */
    method SetUpSocket(w: World)
      requires now == SetUpSession
      modifies this
      ensures State() == Iterate(old(State()), w.(before := []))
    {
      hide NotifyAll;
      calls := calls + [Connect(connInfo)];
      Callbacks(w.during);
      socket := w.connectOk;
      now := if socket then HandleSession else ExitSession;
    }

    /** The EXIT_SESSION case. */
    method TearDown(w: World)
      requires now == ExitSession
      modifies this
      ensures State() == Iterate(old(State()), w.(before := []))
    {
      hide NotifyAll;
      if context.Some? {
        calls := calls + [Destroy(context.value)];
        Callbacks(w.during);
      }
      context := None;
      socket := false;
      watchDog := 0;
      now := InitSession;
    }

    /** One turn of the loop in lwsRecvTask. */
    method Turn(w: World)
      modifies this
      ensures State() == Iterate(old(State()), w)
    {
      hide Iterate;
      QueuedFirst(State(), w);
      if Queue in w.before && socket {
        pending := true;
      }
      match now {
        case InitSession => SetUpContext(w);
        case SetUpSession => SetUpSocket(w);
        case HandleSession => Handle(w);
        case ExitSession => TearDown(w);
      }
    }

    /** Any number of turns of the endless loop. */
    method Loop(ws: seq<World>)
      modifies this
      ensures State() == Run(old(State()), ws)
    {
      hide Iterate;
      var i := 0;
      while i < |ws|
        invariant 0 <= i <= |ws|
        invariant Run(State(), ws[i..]) == Run(old(State()), ws)
      {
        assert ws[i..][0] == ws[i] && ws[i..][1..] == ws[i + 1..];
        Turn(ws[i]);
        i := i + 1;
      }
    }
  }
}
