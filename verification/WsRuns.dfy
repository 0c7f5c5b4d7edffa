/**
 What every run of the session loop guarantees (Demo/wm_websockets_demo.c:76-119 and 152-249): the
 discipline of library calls, the watchdog, and when a message can be written to a NULL socket.
*/
module WsRuns {
  import opened Arith
  import opened Wrappers
  import opened WsSession
  import opened WsEvents

  // ---------- what library events can and cannot change ----------

  /** Callbacks never touch the contexts, and a write is the only call they make. */
  lemma {:induction false} EventsFrame(s: Session, es: seq<Event>)
    ensures var r := NotifyAll(s, es);
            && r.context == s.context && r.connInfo == s.connInfo && r.socket == s.socket
            && r.oldTick == s.oldTick && r.made == s.made
            && (r.now == s.now || r.now == HandleSession || r.now == ExitSession)
            && r.watchDog <= s.watchDog && Audit(r.calls) == Audit(s.calls)
            && (UsesLive(r.calls) <==> UsesLive(s.calls)) && LibraryCalls(r.calls) == LibraryCalls(s.calls)
    decreases es
  {
    hide Audit, UsesLive, LibraryCalls;
    if es != [] {
      AuditNext(s.calls, Write(s.socket));
      if es[0].Writeable? && s.pending {
        EventsFrame(Writing(s), es[0].inside);
      }
      EventsFrame(Notify(s, es[0]), es[1..]);
    }
  }

  // ---------- the discipline of library calls ----------

  /** Follows the context through the calls: created once, destroyed once, and used only in between. */
  datatype Ledger = NoContext | Live(id: nat) | Broken

  function Book(l: Ledger, c: Call): Ledger {
    match c
    case Create(id) => if l == NoContext then Live(id) else Broken
    case CreateFailed => if l == NoContext then l else Broken
    case Connect(ctx) => if ctx.None? || l == Live(ctx.value) then l else Broken
    case Service(ctx) => if ctx.None? || l == Live(ctx.value) then l else Broken
    case Destroy(id) => if l == Live(id) then NoContext else Broken
    case Write(_) => l
    case Illegal => Broken
  }

  function Audit(calls: seq<Call>): Ledger {
    if calls == [] then NoContext else Book(Audit(calls[..|calls| - 1]), calls[|calls| - 1])
  }

  /** No call gets a NULL context. */
  predicate UsesLive(calls: seq<Call>) {
    Connect(None) !in calls && Service(None) !in calls
  }

  /** The calls other than writes. */
  function LibraryCalls(calls: seq<Call>): seq<Call> {
    if calls == [] then []
    else
      var rest, last := LibraryCalls(calls[..|calls| - 1]), calls[|calls| - 1];
      if last.Write? then rest else rest + [last]
  }

  lemma AuditNext(calls: seq<Call>, c: Call)
    ensures Audit(calls + [c]) == Book(Audit(calls), c)
    ensures UsesLive(calls + [c]) <==> UsesLive(calls) && c != Connect(None) && c != Service(None)
    ensures LibraryCalls(calls + [c]) == LibraryCalls(calls) + if c.Write? then [] else [c]
  {
    assert (calls + [c])[..|calls|] == calls;
  }

  /** At the head of the loop: which handles are set in which phase, and what the calls so far amount to. */
  ghost predicate Inv(s: Session) {
    && s.watchDog <= 6
    && Audit(s.calls) == (if s.context.Some? then Live(s.context.value) else NoContext)
    && match s.now
       case InitSession => s.context.None? && !s.socket && s.watchDog == 0
       case SetUpSession => !s.socket && s.connInfo == s.context && s.watchDog == 0
       case HandleSession => s.socket
       case ExitSession => true
  }

  /** The context is there whenever a phase uses it. */
  predicate Equipped(s: Session) {
    s.now == SetUpSession || s.now == HandleSession ==> s.context.Some?
  }

  /** A create that fails leads to SET_UP_SESSION without a context. */
  predicate CreateFails(s: Session, w: World) {
    s.now == InitSession && w.networkOk && !w.createOk
  }

  /** The one library call that a turn makes besides writes, if it makes one. */
  function CallOf(s: Session, w: World): seq<Call> {
    match s.now
    case InitSession => if !w.networkOk then [] else if w.createOk then [Create(s.made)] else [CreateFailed]
    case SetUpSession => [Connect(s.context)]
    case HandleSession => [Service(s.context)]
    case ExitSession => if s.context.Some? then [Destroy(s.context.value)] else []
  }

  /**
   Every iteration keeps the invariant and makes its library call, whatever the callbacks do and whether or
   not a create succeeds; the context is missing only after a create that fails.
  */
  lemma IterateInv(s: Session, w: World)
    requires Inv(s)
    ensures Inv(Iterate(s, w))
    ensures Equipped(s) ==> (Equipped(Iterate(s, w)) <==> !CreateFails(s, w))
    ensures Equipped(s) && UsesLive(s.calls) ==> UsesLive(Iterate(s, w).calls)
    ensures LibraryCalls(Iterate(s, w).calls) == LibraryCalls(s.calls) + CallOf(s, w)
  {
    hide NotifyAll, Audit, UsesLive, LibraryCalls;
    var q := Queued(s, w.before);
    match q.now {
      case InitSession =>
        var c := if w.createOk then Create(q.made) else CreateFailed;
        AuditNext(q.calls, c);
        EventsFrame(q.(calls := q.calls + [c]), w.during);
      case SetUpSession =>
        AuditNext(q.calls, Connect(q.connInfo));
        EventsFrame(q.(calls := q.calls + [Connect(q.connInfo)]), w.during);
      case HandleSession =>
        HandleInv(q, w);
      case ExitSession =>
        if q.context.Some? {
          AuditNext(q.calls, Destroy(q.context.value));
          EventsFrame(q.(calls := q.calls + [Destroy(q.context.value)]), w.during);
        }
    }
  }

  /** The part of HANDLE_SESSION before lws_service. */
  function Checked(s: Session, w: World): Session {
    if !Elapsed(s, w) then s
    else if !w.networkOk then s.(now := ExitSession)
    else
      var r := NotifyAll(s, w.asking);
      if r.watchDog > 5 then r.(now := ExitSession, oldTick := w.tick % U32)
      else r.(watchDog := r.watchDog + 1, oldTick := w.tick % U32)
  }

  lemma HandleInv(s: Session, w: World)
    requires Inv(s) && s.now == HandleSession
    ensures var r := Iterate(s, w.(before := []));
            && Inv(r) && (Equipped(s) ==> Equipped(r))
            && (Equipped(s) && UsesLive(s.calls) ==> UsesLive(r.calls))
            && LibraryCalls(r.calls) == LibraryCalls(s.calls) + [Service(s.context)]
    ensures var c := Checked(s, w);
            Iterate(s, w.(before := [])) == NotifyAll(c.(calls := c.calls + [Service(c.context)]), w.during)
  {
    hide NotifyAll, Audit, UsesLive, LibraryCalls;
    EventsFrame(s, w.asking);
    var c := Checked(s, w);
    AuditNext(c.calls, Service(c.context));
    EventsFrame(c.(calls := c.calls + [Service(c.context)]), w.during);
  }

  lemma StartInv()
    ensures Inv(START)
  {
  }

  lemma {:induction false} RunInv(s: Session, ws: seq<World>)
    requires Inv(s)
    ensures Inv(Run(s, ws))
    decreases |ws|
  {
    hide Inv, Iterate;
    if ws != [] {
      IterateInv(s, ws[0]);
      RunInv(Iterate(s, ws[0]), ws[1..]);
    }
  }

  /**
   In every run: creates and destroys alternate, connect and service get the live context if they get one,
   the "illegal context" branch is never taken, and a session is handled only with its socket set.
  */
  lemma SessionDiscipline(ws: seq<World>)
    ensures var s := Run(START, ws);
            && Audit(s.calls) != Broken && Illegal !in s.calls
            && (s.now == HandleSession ==> s.socket)
            && s.watchDog <= 6
            && Creates(s.calls) == Destroys(s.calls) + (if s.context.Some? then 1 else 0)
  {
    hide Run;
    RunInv(START, ws);
    LedgerCounts(Run(START, ws).calls);
  }

  function Creates(calls: seq<Call>): nat {
    if calls == [] then 0 else Creates(calls[..|calls| - 1]) + (if calls[|calls| - 1].Create? then 1 else 0)
  }

  function Destroys(calls: seq<Call>): nat {
    if calls == [] then 0 else Destroys(calls[..|calls| - 1]) + (if calls[|calls| - 1].Destroy? then 1 else 0)
  }

  lemma {:induction false} LedgerCounts(calls: seq<Call>)
    requires Audit(calls) != Broken
    ensures Creates(calls) == Destroys(calls) + (if Audit(calls).Live? then 1 else 0) && Illegal !in calls
  {
    if calls != [] {
      var rest, last := calls[..|calls| - 1], calls[|calls| - 1];
      LedgerCounts(rest);
      assert calls == rest + [last];
    }
  }

  // ---------- when a context cannot be created ----------

  /** At every head of the loop the phase HANDLE_SESSION has its context and its socket. */
  ghost predicate SafeHeads(s: Session, ws: seq<World>)
    decreases |ws|
  {
    && (s.now == HandleSession ==> s.context.Some? && s.socket)
    && (ws == [] || SafeHeads(Iterate(s, ws[0]), ws[1..]))
  }

  /** No turn with a failing create is followed by a turn whose connect succeeds. */
  ghost predicate NoBlindConnect(s: Session, ws: seq<World>)
    decreases |ws|
  {
    ws == [] ||
    (&& !(CreateFails(s, ws[0]) && |ws| > 1 && ws[1].connectOk)
     && NoBlindConnect(Iterate(s, ws[0]), ws[1..]))
  }

  /** Without a context SET_UP_SESSION still goes where the connect says. */
  lemma BlindConnect(s: Session, w: World)
    requires s.now == SetUpSession && s.context.None?
    ensures var r := Iterate(s, w);
            r.context.None? && r.now == if w.connectOk then HandleSession else ExitSession
  {
    hide NotifyAll, Audit, UsesLive;
    var q := Queued(s, w.before);
    EventsFrame(q.(calls := q.calls + [Connect(q.connInfo)]), w.during);
  }

  lemma FailedCreate(s: Session, w: World)
    requires Inv(s) && CreateFails(s, w)
    ensures Iterate(s, w).now == SetUpSession && Iterate(s, w).context.None?
  {
    hide NotifyAll, Audit;
  }

  lemma {:induction false} SafeHeadsFrom(s: Session, ws: seq<World>)
    requires Inv(s) && Equipped(s)
    ensures SafeHeads(s, ws) <==> NoBlindConnect(s, ws)
    decreases |ws|
  {
    hide Iterate, Audit;
    if ws != [] {
      var r := Iterate(s, ws[0]);
      IterateInv(s, ws[0]);
      if !CreateFails(s, ws[0]) {
        SafeHeadsFrom(r, ws[1..]);
      } else {
        FailedCreate(s, ws[0]);
        if |ws| > 1 {
          var next, rest := Iterate(r, ws[1]), ws[1..][1..];
          BlindConnect(r, ws[1]);
          IterateInv(r, ws[1]);
          assert SafeHeads(r, ws[1..]) <==> SafeHeads(next, rest);
          assert NoBlindConnect(r, ws[1..]) <==> NoBlindConnect(next, rest);
          if !ws[1].connectOk {
            SafeHeadsFrom(next, rest);
          }
        }
      }
    }
  }

  /** In any run, sessions are handled with both handles set exactly if no connect succeeds after a failed create. */
  lemma SessionsHaveContext(ws: seq<World>)
    ensures SafeHeads(START, ws) <==> NoBlindConnect(START, ws)
  {
    SafeHeadsFrom(START, ws);
  }

  ghost predicate CreatesSucceed(ws: seq<World>) {
    forall i :: 0 <= i < |ws| ==> ws[i].createOk
  }

  /** If every create succeeds, connect and service always get the live context. */
  lemma {:induction false} LiveContexts(s: Session, ws: seq<World>)
    requires Inv(s) && Equipped(s) && UsesLive(s.calls) && CreatesSucceed(ws)
    ensures UsesLive(Run(s, ws).calls) && Equipped(Run(s, ws)) && Inv(Run(s, ws))
    decreases |ws|
  {
    hide Inv, Iterate, UsesLive, Equipped;
    if ws != [] {
      IterateInv(s, ws[0]);
      LiveContexts(Iterate(s, ws[0]), ws[1..]);
    }
  }

  // ---------- the watchdog ----------

  lemma {:induction false} WatchDogBounded(s: Session, ws: seq<World>)
    requires s.watchDog <= 6
    ensures Run(s, ws).watchDog <= 6
    decreases |ws|
  {
    hide Iterate;
    if ws != [] {
      WatchDogStep(s, ws[0]);
      WatchDogBounded(Iterate(s, ws[0]), ws[1..]);
    }
  }

  lemma WatchDogStep(s: Session, w: World)
    requires s.watchDog <= 6
    ensures Iterate(s, w).watchDog <= 6
  {
    hide NotifyAll, Audit, UsesLive, LibraryCalls;
    var q := Queued(s, w.before);
    match q.now {
      case InitSession =>
        EventsFrame(q.(calls := q.calls + [if w.createOk then Create(q.made) else CreateFailed]), w.during);
      case SetUpSession =>
        EventsFrame(q.(calls := q.calls + [Connect(q.connInfo)]), w.during);
      case HandleSession =>
        EventsFrame(q, w.asking);
        var c := Checked(q, w);
        EventsFrame(c.(calls := c.calls + [Service(c.context)]), w.during);
      case ExitSession =>
    }
  }

  /** No sign of life from the socket. */
  ghost predicate Silent(es: seq<Event>) {
    forall i :: 0 <= i < |es| ==> !es[i].Writeable? && !es[i].Established?
  }

  lemma {:induction false} SilentEvents(s: Session, es: seq<Event>)
    requires Silent(es)
    ensures var r := NotifyAll(s, es);
            && r.watchDog == s.watchDog && r.oldTick == s.oldTick && (r.now == s.now || r.now == ExitSession)
    decreases |es|
  {
    if es != [] {
      SilentEvents(Notify(s, es[0]), es[1..]);
    }
  }

  /** How many timed checks the iterations make as long as each starts in HANDLE_SESSION. */
  function TimedChecks(s: Session, ws: seq<World>): nat
    decreases |ws|
  {
    if ws == [] then 0
    else (if Elapsed(s, ws[0]) then 1 else 0) + TimedChecks(Iterate(s, ws[0]), ws[1..])
  }

  ghost predicate StaysInSession(s: Session, ws: seq<World>)
    decreases |ws|
  {
    s.now == HandleSession && (ws == [] || StaysInSession(Iterate(s, ws[0]), ws[1..]))
  }

  /** While the socket is silent every timed check raises the watchdog or ends the session. */
  lemma SilentIteration(s: Session, w: World)
    requires s.now == HandleSession && s.watchDog <= 6 && Silent(w.asking) && Silent(w.during)
    ensures var r := Iterate(s, w);
            r.now == HandleSession ==> r.watchDog == s.watchDog + (if Elapsed(s, w) then 1 else 0) && r.watchDog <= 6
  {
    hide NotifyAll;
    var q := Queued(s, w.before);
    SilentEvents(q, w.asking);
    var c := Checked(q, w);
    SilentEvents(c.(calls := c.calls + [Service(c.context)]), w.during);
  }

  lemma {:induction false} WatchDogCounts(s: Session, ws: seq<World>)
    requires s.watchDog <= 6 && StaysInSession(s, ws)
    requires forall i :: 0 <= i < |ws| ==> Silent(ws[i].asking) && Silent(ws[i].during)
    ensures s.watchDog + TimedChecks(s, ws) <= 6
    decreases |ws|
  {
    hide Iterate, Silent;
    if ws != [] {
      SilentIteration(s, ws[0]);
      WatchDogCounts(Iterate(s, ws[0]), ws[1..]);
    }
  }

  /** Leaving HANDLE_SESSION always means entering EXIT_SESSION. */
  lemma LeavingIsExit(s: Session, w: World)
    requires s.now == HandleSession && Iterate(s, w).now != HandleSession
    ensures Iterate(s, w).now == ExitSession
  {
    hide NotifyAll, Audit;
    var q := Queued(s, w.before);
    EventsFrame(q, w.asking);
    var c := Checked(q, w);
    EventsFrame(c.(calls := c.calls + [Service(c.context)]), w.during);
  }

  lemma {:induction false} LeftAt(s: Session, ws: seq<World>) returns (i: nat)
    requires s.now == HandleSession && !StaysInSession(s, ws)
    ensures i <= |ws| && Run(s, ws[..i]).now == ExitSession
    decreases |ws|
  {
    hide Iterate;
    var r := Iterate(s, ws[0]);
    var j := 0;
    if r.now == HandleSession {
      j := LeftAt(r, ws[1..]);
    } else {
      LeavingIsExit(s, ws[0]);
    }
    i := j + 1;
    assert ws[..i][0] == ws[0] && ws[..i][1..] == ws[1..][..j];
  }

  /**
   After any history that handles a session, seven timed checks without a writeable or established callback
   bring the loop to EXIT_SESSION.
  */
  lemma {:induction false} SevenSilentChecksEnd(before: seq<World>, ws: seq<World>)
    requires Run(START, before).now == HandleSession
    requires forall i :: 0 <= i < |ws| ==> Silent(ws[i].asking) && Silent(ws[i].during)
    requires TimedChecks(Run(START, before), ws) >= 7
    ensures exists i :: 0 <= i <= |ws| && Run(Run(START, before), ws[..i]).now == ExitSession
  {
    hide Run;
    WatchDogBounded(START, before);
    if StaysInSession(Run(START, before), ws) {
      WatchDogCounts(Run(START, before), ws);
    }
    var i := LeftAt(Run(START, before), ws);
  }

  // ---------- what keeps a session ----------

  predicate Due(since: nat, w: World) {
    (w.tick - since) % 0x1_0000_0000 > 500
  }

  /**
   Judged by the clock, the network and the writeable callbacks alone: `n` timed checks have passed unanswered
   when the worlds `ws` follow, the last check was at `since`, and every further check finds the network and
   at most five before it unanswered.
  */
  ghost predicate InTime(n: nat, since: nat, ws: seq<World>)
    decreases |ws|
  {
    ws == [] ||
    var w, due := ws[0], Due(since, ws[0]);
    var asked := if due && HasWriteable(w.asking) then 0 else n;
    && (due ==> w.networkOk && asked <= 5)
    && InTime(if HasWriteable(w.during) then 0 else if due then asked + 1 else n,
              if due then w.tick % 0x1_0000_0000 else since, ws[1..])
  }

  ghost predicate AllBenign(ws: seq<World>, strict: bool) {
    forall i :: 0 <= i < |ws| ==> Benign(ws[i].asking, strict) && Benign(ws[i].during, strict)
  }

  lemma TurnInTime(s: Session, w: World, strict: bool)
    requires s.now == HandleSession && Benign(w.asking, strict) && Benign(w.during, strict)
    ensures var due := Due(s.oldTick, w);
            var asked := if due && HasWriteable(w.asking) then 0 else s.watchDog;
            var r := Iterate(s, w);
            && (due && !(w.networkOk && asked <= 5) && strict ==> r.now == ExitSession)
            && (!due || (w.networkOk && asked <= 5) ==>
                  && r.now == HandleSession
                  && r.watchDog == (if HasWriteable(w.during) then 0 else if due then asked + 1 else s.watchDog)
                  && r.oldTick == if due then w.tick % 0x1_0000_0000 else s.oldTick)
  {
    hide NotifyAll, Audit, UsesLive, LibraryCalls, HasWriteable, Benign;
    var q := Queued(s, w.before);
    BenignEvents(q, w.asking, strict);
    WatchDogAfter(q, w.asking);
    EventsFrame(q, w.asking);
    var c := Checked(q, w);
    var c' := c.(calls := c.calls + [Service(c.context)]);
    BenignEvents(c', w.during, strict);
    WatchDogAfter(c', w.during);
    EventsFrame(c', w.during);
  }

  /**
   Without an error, close or failed write a session goes on as long as its checks are answered in time; and,
   if nothing is established meanwhile either, exactly as long.
  */
  lemma {:induction false} SessionStays(s: Session, ws: seq<World>, strict: bool)
    requires s.now == HandleSession && AllBenign(ws, strict)
    ensures InTime(s.watchDog, s.oldTick, ws) ==> StaysInSession(s, ws)
    ensures strict && StaysInSession(s, ws) ==> InTime(s.watchDog, s.oldTick, ws)
    decreases |ws|
  {
    hide Iterate, Benign, HasWriteable, Due;
    if ws != [] {
      var r := Iterate(s, ws[0]);
      TurnInTime(s, ws[0], strict);
      if r.now == HandleSession {
        SessionStays(r, ws[1..], strict);
      } else {
        assert !StaysInSession(r, ws[1..]);
      }
    }
  }

  /** Between any two timed checks, and before the first unless `seen`, the socket reports writeable. */
  ghost predicate Attended(seen: bool, since: nat, ws: seq<World>)
    decreases |ws|
  {
    ws == [] ||
    var w, due := ws[0], Due(since, ws[0]);
    && (due ==> w.networkOk && (seen || HasWriteable(w.asking)))
    && Attended(HasWriteable(w.during) || (!due && seen), if due then w.tick % 0x1_0000_0000 else since, ws[1..])
  }

  lemma {:induction false} AttendedInTime(seen: bool, n: nat, since: nat, ws: seq<World>)
    requires Attended(seen, since, ws) && (seen ==> n <= 5)
    ensures InTime(n, since, ws)
    decreases |ws|
  {
    hide HasWriteable, Due;
    if ws != [] {
      var w, due := ws[0], Due(since, ws[0]);
      var asked := if due && HasWriteable(w.asking) then 0 else n;
      AttendedInTime(HasWriteable(w.during) || (!due && seen),
                     if HasWriteable(w.during) then 0 else if due then asked + 1 else n,
                     if due then w.tick % 0x1_0000_0000 else since, ws[1..]);
    }
  }

  /**
   The converse of seven silent checks: with network, no error, close or failed write, and a writeable
   callback between any two timed checks, a session never leaves HANDLE_SESSION.
  */
  lemma AttendedSessionStays(s: Session, ws: seq<World>)
    requires s.now == HandleSession && s.watchDog <= 5 && AllBenign(ws, false) && Attended(true, s.oldTick, ws)
    ensures StaysInSession(s, ws)
  {
    AttendedInTime(true, s.watchDog, s.oldTick, ws);
    SessionStays(s, ws, false);
  }

  /** After any run, a session that comes up starts with the watchdog at 0, whatever the callbacks did before. */
  lemma NewSessionStartsAtZero(ws: seq<World>, w: World)
    requires Run(START, ws).now != HandleSession && Iterate(Run(START, ws), w).now == HandleSession
    ensures Run(START, ws).now == SetUpSession && Iterate(Run(START, ws), w).watchDog == 0
  {
    hide Run, NotifyAll, Audit, UsesLive, LibraryCalls;
    assert Inv(START) by { StartInv(); }
    RunInv(START, ws);
    var q := Queued(Run(START, ws), w.before);
    EventsFrame(q.(calls := q.calls + [Connect(q.connInfo)]), w.during);
  }

  /**
   From EXIT_SESSION three turns with network, a create and a connect bring up a new session with its own
   context, its socket and the watchdog at 0, whatever the callbacks do meanwhile.
  */
  lemma SessionComesUp(s: Session, a: World, b: World, c: World)
    requires Inv(s) && s.now == ExitSession && b.networkOk && b.createOk && c.connectOk
    ensures var r := Run(s, [a, b, c]);
            r.now == HandleSession && r.context == Some(s.made) && r.socket && r.watchDog == 0
  {
    hide NotifyAll, Audit, UsesLive, LibraryCalls, Run;
    RunThree(s, a, b, c);
    var q := Queued(s, a.before);
    if q.context.Some? {
      EventsFrame(q.(calls := q.calls + [Destroy(q.context.value)]), a.during);
    }
    var s1 := Iterate(s, a);
    assert s1.now == InitSession && s1.context.None? && !s1.socket && s1.watchDog == 0 && s1.made == s.made;
    SetsUp(s1, b, c);
  }

  lemma SetsUp(s: Session, b: World, c: World)
    requires s.now == InitSession && s.context.None? && s.watchDog == 0 && b.networkOk && b.createOk && c.connectOk
    ensures var r := Iterate(Iterate(s, b), c);
            r.now == HandleSession && r.context == Some(s.made) && r.socket && r.watchDog == 0
  {
    hide NotifyAll, Audit, UsesLive, LibraryCalls;
    var q := Queued(s, b.before);
    EventsFrame(q.(calls := q.calls + [Create(q.made)]), b.during);
    var s2 := Iterate(s, b);
    assert s2.now == SetUpSession && s2.context == Some(s.made) && s2.watchDog == 0;
    var q2 := Queued(s2, c.before);
    EventsFrame(q2.(calls := q2.calls + [Connect(q2.connInfo)]), c.during);
  }

  /** Where the phases that set up and tear down a session lead. */
  lemma PhaseAfter(s: Session, w: World)
    requires Inv(s)
    ensures s.now == InitSession ==> Iterate(s, w).now == if w.networkOk then SetUpSession else InitSession
    ensures s.now == SetUpSession ==> Iterate(s, w).now == if w.connectOk then HandleSession else ExitSession
    ensures s.now == ExitSession ==> Iterate(s, w).now == InitSession
  {
    hide NotifyAll, Audit;
  }

  // ---------- writing ----------

  ghost predicate WritesToSocket(calls: seq<Call>) {
    forall i :: 0 <= i < |calls| ==> calls[i] != Write(false)
  }

  lemma WritesSoFar(a: seq<Call>, b: seq<Call>)
    requires a <= b && WritesToSocket(b)
    ensures WritesToSocket(a)
  {
  }

  /** With a socket every write is sound. */
  lemma {:induction false} SocketWrites(s: Session, es: seq<Event>)
    requires WritesToSocket(s.calls) && s.socket
    ensures WritesToSocket(NotifyAll(s, es).calls) && NotifyAll(s, es).socket
    decreases es
  {
    if es != [] {
      if es[0].Writeable? && s.pending {
        SocketWrites(Writing(s), es[0].inside);
      }
      SocketWrites(Notify(s, es[0]), es[1..]);
    }
  }

  /** Without one, a write happens exactly when a message is queued and the library reports writeable. */
  lemma {:induction false} StaleWrites(s: Session, es: seq<Event>)
    requires WritesToSocket(s.calls) && !s.socket
    ensures WritesToSocket(NotifyAll(s, es).calls) <==> !(s.pending && HasWriteable(es))
    decreases es
  {
    if es != [] {
      var r := Notify(s, es[0]);
      assert HasWriteable(es) <==> es[0].Writeable? || HasWriteable(es[1..]) by { WriteableTail(es); }
      if es[0].Writeable? && s.pending {
        var w := Writing(s);
        EventsGrow(w, es[0].inside);
        EventsGrow(r, es[1..]);
        assert w.calls[|s.calls|] == Write(false);
        assert NotifyAll(s, es).calls[|s.calls|] == Write(false);
      } else {
        StaleWrites(r, es[1..]);
      }
    }
  }

  /** The turn makes its library call. */
  predicate CallsLibrary(s: Session, w: World) {
    match s.now
    case InitSession => w.networkOk && s.context.None?
    case SetUpSession => true
    case HandleSession => true
    case ExitSession => s.context.Some?
  }

  /** A turn that starts with a message queued but no socket, and in which the library reports writeable. */
  ghost predicate StaleTurn(s: Session, w: World) {
    s.pending && !s.socket && CallsLibrary(s, w) && HasWriteable(w.during)
  }

  ghost predicate NoStale(s: Session, ws: seq<World>)
    decreases |ws|
  {
    ws == [] || (!StaleTurn(s, ws[0]) && NoStale(Iterate(s, ws[0]), ws[1..]))
  }

  lemma EventWrites(s: Session, es: seq<Event>)
    requires WritesToSocket(s.calls)
    ensures WritesToSocket(NotifyAll(s, es).calls) <==> s.socket || !(s.pending && HasWriteable(es))
  {
    hide NotifyAll, WritesToSocket, HasWriteable;
    if s.socket {
      SocketWrites(s, es);
    } else {
      StaleWrites(s, es);
    }
  }

  lemma OneMore(calls: seq<Call>, c: Call)
    requires !c.Write?
    ensures WritesToSocket(calls + [c]) <==> WritesToSocket(calls)
  {
    if WritesToSocket(calls + [c]) {
      WritesSoFar(calls, calls + [c]);
    }
  }

  lemma IterateWrites(s: Session, w: World)
    requires Inv(s) && WritesToSocket(s.calls)
    ensures WritesToSocket(Iterate(s, w).calls) <==> !StaleTurn(s, w)
  {
    hide NotifyAll, Audit, WritesToSocket, HasWriteable;
    var q := Queued(s, w.before);
    match q.now {
      case InitSession =>
        var c := if w.createOk then Create(q.made) else CreateFailed;
        OneMore(q.calls, c);
        EventWrites(q.(calls := q.calls + [c]), w.during);
      case SetUpSession =>
        OneMore(q.calls, Connect(q.connInfo));
        EventWrites(q.(calls := q.calls + [Connect(q.connInfo)]), w.during);
      case HandleSession =>
        SocketWrites(q, w.asking);
        var c := Checked(q, w);
        OneMore(c.calls, Service(c.context));
        EventWrites(c.(calls := c.calls + [Service(c.context)]), w.during);
      case ExitSession =>
        if q.context.Some? {
          OneMore(q.calls, Destroy(q.context.value));
          EventWrites(q.(calls := q.calls + [Destroy(q.context.value)]), w.during);
        }
    }
  }

  lemma IterateGrows(s: Session, w: World)
    ensures s.calls <= Iterate(s, w).calls
  {
    hide NotifyAll;
    var q := Queued(s, w.before);
    match q.now {
      case InitSession =>
        EventsGrow(q.(calls := q.calls + [if w.createOk then Create(q.made) else CreateFailed]), w.during);
      case SetUpSession =>
        EventsGrow(q.(calls := q.calls + [Connect(q.connInfo)]), w.during);
      case HandleSession =>
        EventsGrow(q, w.asking);
        var c := Checked(q, w);
        EventsGrow(c.(calls := c.calls + [Service(c.context)]), w.during);
      case ExitSession =>
        if q.context.Some? {
          EventsGrow(q.(calls := q.calls + [Destroy(q.context.value)]), w.during);
        }
    }
  }

  lemma {:induction false} RunGrows(s: Session, ws: seq<World>)
    ensures s.calls <= Run(s, ws).calls
    decreases |ws|
  {
    hide Iterate;
    if ws != [] {
      IterateGrows(s, ws[0]);
      RunGrows(Iterate(s, ws[0]), ws[1..]);
    }
  }

  /**
   lws_write never gets a NULL socket exactly when no turn starts with a message queued but no socket and
   then hears of a writeable socket from its library call.
  */
  lemma {:induction false} WritesHaveSocket(s: Session, ws: seq<World>)
    requires Inv(s) && WritesToSocket(s.calls)
    ensures WritesToSocket(Run(s, ws).calls) <==> NoStale(s, ws)
    decreases |ws|
  {
    hide Iterate, Inv, WritesToSocket, StaleTurn;
    if ws != [] {
      var r := Iterate(s, ws[0]);
      IterateInv(s, ws[0]);
      IterateWrites(s, ws[0]);
      if StaleTurn(s, ws[0]) {
        RunGrows(r, ws[1..]);
        if WritesToSocket(Run(s, ws).calls) {
          WritesSoFar(r.calls, Run(r, ws[1..]).calls);
        }
      } else {
        WritesHaveSocket(r, ws[1..]);
      }
    }
  }

  lemma {:induction false} RunConcat(s: Session, a: seq<World>, b: seq<World>)
    ensures Run(s, a + b) == Run(Run(s, a), b)
    decreases |a|
  {
    hide Iterate;
    if a == [] {
      assert a + b == b;
    } else {
      assert (a + b)[1..] == a[1..] + b;
      RunConcat(Iterate(s, a[0]), a[1..], b);
    }
  }

  lemma RunThree(s: Session, a: World, b: World, c: World)
    ensures Run(s, [a, b, c]) == Iterate(Iterate(Iterate(s, a), b), c)
  {
    hide Iterate;
    var s1, s2 := Iterate(s, a), Iterate(Iterate(s, a), b);
    assert [a, b, c][1..] == [b, c] && [b, c][1..] == [c] && [c][1..] == [];
    assert Run(s, [a, b, c]) == Run(s1, [b, c]) == Run(s2, [c]) == Run(Iterate(s2, c), []);
  }

  const CALM := World(true, true, true, 0, [], [], [])

  /** A session that ends with a message still queued. */
  lemma EndsWithMessage()
    ensures var s := Run(START, [CALM, CALM, CALM.(before := [Queue], during := [Closed])]);
            s.now == ExitSession && s.pending
  {
    var last := CALM.(before := [Queue], during := [Closed]);
    assert last.during[1..] == [];
    RunThree(START, CALM, CALM, last);
  }

  /** In the next session a writeable callback during the connect writes it to a null socket. */
  lemma StaleMessageWritten(s: Session)
    requires s.now == ExitSession && s.pending
    ensures Write(false) in Run(s, [CALM, CALM, CALM.(during := [Writeable(1, [])])]).calls
  {
    var last := CALM.(during := [Writeable(1, [])]);
    assert last.during[1..] == [];
    RunThree(s, CALM, CALM, last);
    var r := Iterate(Iterate(Iterate(s, CALM), CALM), last);
    assert r.calls[|r.calls| - 1] == Write(false);
  }

  /** Such a run exists, with every create successful. */
  lemma WritesWithoutSocket()
    ensures exists ws :: CreatesSucceed(ws) && !WritesToSocket(Run(START, ws).calls)
  {
    hide Run;
    var a := [CALM, CALM, CALM.(before := [Queue], during := [Closed])];
    var b := [CALM, CALM, CALM.(during := [Writeable(1, [])])];
    EndsWithMessage();
    StaleMessageWritten(Run(START, a));
    RunConcat(START, a, b);
    assert CreatesSucceed(a + b);
  }

  /** The first writeable callback writes a queued message. */
  lemma {:induction false} FirstWrite(s: Session, es: seq<Event>)
    requires s.pending && HasWriteable(es)
    ensures s.calls + [Write(s.socket)] <= NotifyAll(s, es).calls
    decreases es
  {
    hide HasWriteable;
    assert es != [] by { NoneWriteable(); }
    var r := Notify(s, es[0]);
    WriteableTail(es);
    if es[0].Writeable? {
      EventsGrow(Writing(s), es[0].inside);
      EventsGrow(r, es[1..]);
    } else {
      FirstWrite(r, es[1..]);
    }
  }

  /** A message that the sending task queues for a handled session is written when the socket reports writeable. */
  lemma QueuedMessageSent(s: Session, w: World)
    requires Inv(s) && s.now == HandleSession && (s.pending || Queue in w.before) && HasWriteable(w.during)
    ensures s.calls <= Iterate(s, w).calls && Write(true) in Iterate(s, w).calls[|s.calls|..]
  {
    hide NotifyAll, Audit, HasWriteable;
    IterateGrows(s, w);
    var q := Queued(s, w.before);
    var c := Checked(q, w);
    var c' := c.(calls := c.calls + [Service(c.context)]);
    EventsGrow(q, w.asking);
    EventsGrow(c', w.during);
    assert Iterate(s, w) == NotifyAll(c', w.during);
    if Elapsed(q, w) && w.networkOk && HasWriteable(w.asking) {
      FirstWrite(q, w.asking);
      assert c'.calls[|s.calls|] == Write(true);
    } else {
      if Elapsed(q, w) && w.networkOk {
        PendingWithout(q, w.asking);
      }
      FirstWrite(c', w.during);
      assert Iterate(s, w).calls[|c'.calls|] == Write(true);
    }
  }
}
