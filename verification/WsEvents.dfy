/**
 What a list of library events amounts to (Demo/wm_websockets_demo.c:57-119): which event decides the
 phase, what is left of the watchdog and of the queued message, and what is written.
*/
module WsEvents {
  import opened WsSession

  lemma {:induction false} EventsConcat(s: Session, a: seq<Event>, b: seq<Event>)
    ensures NotifyAll(s, a + b) == NotifyAll(NotifyAll(s, a), b)
    decreases |a|
  {
    hide Notify;
    if a == [] {
      assert a + b == b;
    } else {
      assert (a + b)[1..] == a[1..] + b;
      EventsConcat(Notify(s, a[0]), a[1..], b);
    }
  }

  lemma EventsAround(s: Session, a: seq<Event>, e: Event, b: seq<Event>)
    ensures NotifyAll(s, a + [e] + b) == NotifyAll(Notify(NotifyAll(s, a), e), b)
  {
    hide Notify;
    EventsConcat(s, a + [e], b);
    EventsConcat(s, a, [e]);
    var t := NotifyAll(s, a);
    assert [e][1..] == [] && NotifyAll(t, [e]) == NotifyAll(Notify(t, e), []);
  }

  ghost predicate HasWriteable(es: seq<Event>) {
    exists i :: 0 <= i < |es| && es[i].Writeable?
  }

  lemma WriteableTail(es: seq<Event>)
    requires es != []
    ensures HasWriteable(es) <==> es[0].Writeable? || HasWriteable(es[1..])
  {
    if HasWriteable(es) && !es[0].Writeable? {
      var i :| 0 <= i < |es| && es[i].Writeable?;
      assert es[1..][i - 1] == es[i];
    }
  }

  /** A writeable callback resets the watchdog, and nothing else touches it. */
  lemma {:induction false} WatchDogAfter(s: Session, es: seq<Event>)
    ensures NotifyAll(s, es).watchDog == if HasWriteable(es) then 0 else s.watchDog
    decreases es
  {
    hide HasWriteable;
    if es != [] {
      WriteableTail(es);
      if es[0].Writeable? && s.pending {
        WatchDogAfter(Writing(s), es[0].inside);
      }
      WatchDogAfter(Notify(s, es[0]), es[1..]);
    } else {
      assert !HasWriteable(es) by { NoneWriteable(); }
    }
  }

  lemma NoneWriteable()
    ensures !HasWriteable([])
  {
  }

  /** Nothing that could change the phase. */
  predicate SaysNothing(es: seq<Event>) {
    forall i :: 0 <= i < |es| ==> es[i].Receive? || es[i].Other? || es[i].Queue?
  }

  lemma {:induction false} NothingSaid(s: Session, es: seq<Event>)
    requires SaysNothing(es)
    ensures NotifyAll(s, es).now == s.now
    decreases es
  {
    if es != [] {
      NothingSaid(Notify(s, es[0]), es[1..]);
    }
  }

  /**
   The last event that says something decides the phase: established means HANDLE_SESSION, an error, a close
   or a write that returns 0 or less means EXIT_SESSION; a write that succeeds leaves it to what happened
   inside it, and a writeable callback with nothing queued says nothing.
  */
  lemma NowAfter(s: Session, a: seq<Event>, e: Event, b: seq<Event>)
    requires SaysNothing(b)
    ensures var t, r := NotifyAll(s, a), NotifyAll(s, a + [e] + b);
            && (e.Established? ==> r.now == HandleSession)
            && (e.ConnectionError? || e.Closed? ==> r.now == ExitSession)
            && (e.Writeable? && t.pending && e.written <= 0 ==> r.now == ExitSession)
            && (e.Writeable? && t.pending && e.written > 0 ==> r.now == NotifyAll(Writing(t), e.inside).now)
            && (e.Writeable? && !t.pending ==> r.now == t.now)
            && (SaysNothing([e]) ==> r.now == t.now)
  {
    EventsAround(s, a, e, b);
    NothingSaid(Notify(NotifyAll(s, a), e), b);
    if SaysNothing([e]) {
      assert [e][0] == e;
    }
  }

  lemma {:induction false} SocketKept(s: Session, es: seq<Event>)
    ensures NotifyAll(s, es).socket == s.socket
    decreases es
  {
    if es != [] {
      if es[0].Writeable? && s.pending {
        SocketKept(Writing(s), es[0].inside);
      }
      SocketKept(Notify(s, es[0]), es[1..]);
    }
  }

  /** Without a writeable callback a message is queued afterwards if it was before or is queued meanwhile. */
  lemma {:induction false} PendingWithout(s: Session, es: seq<Event>)
    requires !HasWriteable(es)
    ensures NotifyAll(s, es).pending <==> s.pending || (s.socket && Queue in es)
    ensures NotifyAll(s, es).calls == s.calls && NotifyAll(s, es).socket == s.socket
    decreases es
  {
    hide HasWriteable;
    if es != [] {
      WriteableTail(es);
      PendingWithout(Notify(s, es[0]), es[1..]);
      assert es == [es[0]] + es[1..];
    }
  }

  /**
   After the last writeable callback a message is queued only if it was queued behind it: what is queued
   inside lws_write is dropped. A message queued before the callback is written to the socket.
  */
  lemma PendingAfter(s: Session, a: seq<Event>, n: int, inside: seq<Event>, b: seq<Event>)
    requires !HasWriteable(b)
    ensures var t, r := NotifyAll(s, a), NotifyAll(s, a + [Writeable(n, inside)] + b);
            && (r.pending <==> s.socket && Queue in b)
            && (t.pending ==> t.calls + [Write(s.socket)] <= r.calls)
            && (!t.pending ==> r.calls == t.calls)
  {
    hide HasWriteable;
    var e, t := Writeable(n, inside), NotifyAll(s, a);
    EventsAround(s, a, e, b);
    SocketKept(s, a);
    SocketKept(Writing(t), inside);
    EventsGrow(Writing(t), inside);
    PendingWithout(Notify(t, e), b);
  }

  lemma {:induction false} EventsGrow(s: Session, es: seq<Event>)
    ensures s.calls <= NotifyAll(s, es).calls
    decreases es
  {
    if es != [] {
      if es[0].Writeable? && s.pending {
        EventsGrow(Writing(s), es[0].inside);
      }
      EventsGrow(Notify(s, es[0]), es[1..]);
    }
  }

  /** No error, close or failed write, also inside writes; under `strict`, nothing established either. */
  predicate Benign(es: seq<Event>, strict: bool)
    decreases es
  {
    es == [] ||
    (&& !es[0].ConnectionError? && !es[0].Closed? && !(strict && es[0].Established?)
     && (es[0].Writeable? ==> es[0].written > 0 && Benign(es[0].inside, strict))
     && Benign(es[1..], strict))
  }

  lemma {:induction false} BenignEvents(s: Session, es: seq<Event>, strict: bool)
    requires Benign(es, strict)
    ensures NotifyAll(s, es).now == s.now || (!strict && NotifyAll(s, es).now == HandleSession)
    decreases es
  {
    if es != [] {
      if es[0].Writeable? && s.pending {
        BenignEvents(Writing(s), es[0].inside, strict);
      }
      BenignEvents(Notify(s, es[0]), es[1..], strict);
    }
  }
}
