/**
 * The bridge client's connection lifecycle. The class changes its fields as the source
 * does; every method is tied to a step of `Client`, the client together with its
 * environment (promises, sockets and timers), and the facts about all runs are about steps.
 *
 * The n-th call of `connect` owns socket n and promise n: the factory makes a new socket
 * each time. Any socket ever made may still fire, as its callbacks may have been retained.
 */
module BridgeClient {
  import opened Prelude

  datatype ConnectionState = Disconnected | Connecting | Connected | Reconnecting

  datatype Target = Target(token: string, host: string, port: int, wsPath: string)

  /** How a connect promise ends: resolved by `Opened`, rejected by everything else. */
  datatype Verdict = Opened | Superseded | Cancelled | ClosedEarly | Failed | Refused

  datatype Attempt = Attempt(target: Target, now: int)

  datatype Client = Client(
    state: ConnectionState,
    socket: Option<nat>,
    target: Option<Target>,
    tokenExpiresAt: Option<int>,
    heartbeatTimer: Option<nat>,
    pendingConnectReject: Option<nat>,
    attempts: seq<Attempt>,
    verdicts: map<nat, Verdict>,
    listening: set<nat>,
    timers: nat,
    live: set<nat>)

  const INITIAL := Client(Disconnected, None, None, None, None, None, [], map[], {}, 0, {})

  datatype Event =
    | Connect(target: Target, now: int, socketMade: bool)
    | Disconnect
    | SocketOpened(socket: nat)
    | SocketClosed(socket: nat)
    | SocketFailed(socket: nat)
    | TimerFired(timer: nat)

  // ---------------------------------------------------------------- steps

  /** Settling a promise: only the first call has an effect. */
  function Settle(c: Client, promise: nat, v: Verdict): Client {
    if promise in c.verdicts then c else c.(verdicts := c.verdicts[promise := v])
  }

  function SettlePending(c: Client, v: Verdict): Client {
    match c.pendingConnectReject
    case None => c
    case Some(p) => Settle(c.(pendingConnectReject := None), p, v)
  }

  lemma SettlingKeepsListening(c: Client, v: Verdict)
    ensures SettlePending(c, v).listening == c.listening
  {
  }

  function WithoutTimer(c: Client): Client {
    match c.heartbeatTimer
    case None => c
    case Some(t) => c.(heartbeatTimer := None, live := c.live - {t})
  }

  function WithTimer(c: Client): Client {
    c.(heartbeatTimer := Some(c.timers), live := c.live + {c.timers}, timers := c.timers + 1)
  }

  function WithoutSocket(c: Client): Client {
    match c.socket
    case None => c
    case Some(s) => c.(socket := None, listening := c.listening - {s})
  }

  function WithoutTarget(c: Client): Client {
    c.(target := None, tokenExpiresAt := None)
  }

  function Step(c: Client, ttl: int, e: Event): Client {
    match e
    case Connect(target, now, socketMade) =>
      var n := |c.attempts|;
      var c := c.(attempts := c.attempts + [Attempt(target, now)]);
      if !socketMade then Settle(c, n, Refused)
      else
        SettlePending(WithoutSocket(c), Superseded).(
          state := Connecting, socket := Some(n), listening := WithoutSocket(c).listening + {n},
          target := Some(target), tokenExpiresAt := Some(now + ttl), pendingConnectReject := Some(n))
    case Disconnect =>
      SettlePending(WithoutSocket(WithoutTarget(WithoutTimer(c.(state := Disconnected)))), Cancelled)
    case SocketOpened(s) =>
      if c.socket != Some(s) then c
      else Settle(WithTimer(WithoutTimer(c.(pendingConnectReject := None, state := Connected))), s, Opened)
    case SocketClosed(s) =>
      if c.socket != Some(s) then c
      else if c.state == Connecting then
        SettlePending(WithoutTarget(WithoutSocket(WithoutTimer(c))).(state := Disconnected), ClosedEarly)
      else WithoutSocket(WithoutTimer(c)).(state := Disconnected, pendingConnectReject := None)
    case SocketFailed(s) =>
      if c.socket != Some(s) || c.state != Connecting then c
      else SettlePending(WithoutSocket(WithoutTarget(WithoutTimer(c.(state := Disconnected)))), Failed)
    case TimerFired(t) =>
      if t !in c.live then c
      else
        var c := c.(live := c.live - {t});
        if c.state == Connected then WithTimer(c) else c
  }

  // ---------------------------------------------------------------- the class

  class BridgeClient {
    var state: ConnectionState
    var socket: Option<nat>
    var target: Option<Target>
    var tokenExpiresAt: Option<int>
    var heartbeatTimer: Option<nat>
    var pendingConnectReject: Option<nat>
    const pairTokenTtlMs: int

    // The environment: calls of connect, settled promises, sockets with handlers, and timers.
    ghost var attempts: seq<Attempt>
    ghost var verdicts: map<nat, Verdict>
    ghost var listening: set<nat>
    var timers: nat
    ghost var live: set<nat>

    constructor (pairTokenTtlMs: int)
      ensures Now() == INITIAL && this.pairTokenTtlMs == pairTokenTtlMs
    {
      state := Disconnected;
      socket, target, tokenExpiresAt, heartbeatTimer, pendingConnectReject := None, None, None, None, None;
      this.pairTokenTtlMs := pairTokenTtlMs;
      attempts, verdicts, listening, timers, live := [], map[], {}, 0, {};
    }

    ghost function Now(): Client
      reads this
    {
      Client(state, socket, target, tokenExpiresAt, heartbeatTimer, pendingConnectReject,
             attempts, verdicts, listening, timers, live)
    }

    ghost method SettlePromise(promise: nat, v: Verdict)
      modifies this`verdicts
      ensures Now() == Settle(old(Now()), promise, v)
    {
      if promise !in verdicts {
        verdicts := verdicts[promise := v];
      }
    }

    /** `setTimeout`: every call makes a new handle. */
    method SetTimeout() returns (handle: nat)
      modifies this`timers, this`live
      ensures handle == old(timers)
      ensures Now() == old(Now()).(timers := old(timers) + 1, live := old(live) + {old(timers)})
    {
      handle := timers;
      timers := timers + 1;
      live := live + {handle};
    }

    method StartHeartbeat()
      modifies this`heartbeatTimer, this`timers, this`live
      ensures Now() == WithTimer(WithoutTimer(old(Now())))
    {
      StopHeartbeat();
      var handle := SetTimeout();
      heartbeatTimer := Some(handle);
    }

    method StopHeartbeat()
      modifies this`heartbeatTimer, this`live
      ensures Now() == WithoutTimer(old(Now()))
    {
      if heartbeatTimer.Some? {
        live := live - {heartbeatTimer.value};
        heartbeatTimer := None;
      }
    }

    /** The callback of a heartbeat timer; the event loop calls it at most once a handle. */
    method TickHeartbeat(ghost timer: nat)
      requires timer in live
      modifies this`heartbeatTimer, this`timers, this`live
      ensures Now() == Step(old(Now()), pairTokenTtlMs, TimerFired(timer))
    {
      live := live - {timer};
      if state != Connected {
        return;
      }
      var handle := SetTimeout();
      heartbeatTimer := Some(handle);
    }

    ghost method ClearSocketHandlers(s: nat)
      modifies this`listening
      ensures Now() == old(Now()).(listening := old(listening) - {s})
    {
      listening := listening - {s};
    }

    method DisconnectSocketOnly(ghost reason: Verdict)
      modifies this`socket, this`listening, this`pendingConnectReject, this`verdicts
      ensures Now() == SettlePending(WithoutSocket(old(Now())), reason)
    {
      if socket.Some? {
        ClearSocketHandlers(socket.value);
        socket := None;
      }
      var rejectPending := pendingConnectReject;
      pendingConnectReject := None;
      if rejectPending.Some? {
        SettlePromise(rejectPending.value, reason);
      }
    }

    /** `made` is the socket of the factory, or nothing when the URL is refused or the factory throws. */
    method Connect(target: Target, now: int, made: Option<nat>)
      requires made.Some? ==> made.value == |attempts|
      modifies this
      ensures Now() == Step(old(Now()), pairTokenTtlMs, Event.Connect(target, now, made.Some?))
    {
      hide SettlePending, WithoutSocket, Settle;
      ghost var promise := |attempts|;
      attempts := attempts + [Attempt(target, now)];
      ghost var begun := Now();
      if made.None? {
        SettlePromise(promise, Refused);
        return;
      }
      DisconnectSocketOnly(Superseded);
      SettlingKeepsListening(WithoutSocket(begun), Superseded);
      this.target := Some(target);
      tokenExpiresAt := Some(now + pairTokenTtlMs);
      state := Connecting;
      socket := made;
      pendingConnectReject := made;
      listening := listening + {made.value};
    }

    method Disconnect()
      modifies this
      ensures Now() == Step(old(Now()), pairTokenTtlMs, Event.Disconnect)
      ensures state == Disconnected && socket == None && pendingConnectReject == None && heartbeatTimer == None
      ensures target == None && tokenExpiresAt == None
    {
      state := Disconnected;
      StopHeartbeat();
      target := None;
      tokenExpiresAt := None;
      DisconnectSocketOnly(Cancelled);
    }

    method OnOpen(s: nat)
      modifies this
      ensures Now() == Step(old(Now()), pairTokenTtlMs, SocketOpened(s))
    {
      if socket != Some(s) {
        return;
      }
      pendingConnectReject := None;
      state := Connected;
      StartHeartbeat();
      SettlePromise(s, Opened);
    }

    method OnClose(s: nat)
      modifies this
      ensures Now() == Step(old(Now()), pairTokenTtlMs, SocketClosed(s))
    {
      if socket != Some(s) {
        return;
      }
      hide WithoutTimer, Settle;
      StopHeartbeat();
      var wasConnecting := state == Connecting;
      var rejectPending := pendingConnectReject;
      pendingConnectReject := None;
      ClearSocketHandlers(s);
      socket := None;
      if wasConnecting {
        target := None;
        tokenExpiresAt := None;
      }
      state := Disconnected;
      if wasConnecting && rejectPending.Some? {
        SettlePromise(rejectPending.value, ClosedEarly);
      }
    }

    method OnError(s: nat)
      modifies this
      ensures Now() == Step(old(Now()), pairTokenTtlMs, SocketFailed(s))
    {
      if socket == Some(s) && state == Connecting {
        state := Disconnected;
        StopHeartbeat();
        target := None;
        tokenExpiresAt := None;
        DisconnectSocketOnly(Failed);
      }
    }
  }

  // ---------------------------------------------------------------- what every reachable state satisfies

  function Run(c: Client, ttl: int, es: seq<Event>): Client
    decreases es
  {
    if es == [] then c else Run(Step(c, ttl, es[0]), ttl, es[1..])
  }

  /** The unsettled promises are the current attempt while connecting, and none otherwise. */
  ghost predicate PromisesKept(c: Client) {
    && (forall p :: p in c.verdicts ==> p < |c.attempts|)
    && (forall p: nat :: p < |c.attempts| ==> (p !in c.verdicts <==> c.state == Connecting && c.pendingConnectReject == Some(p)))
  }

  /** The state says which of socket, target and pending rejection are set. */
  ghost predicate FieldsAgree(c: Client, ttl: int) {
    && c.state != Reconnecting
    && (c.state == Connecting || c.state == Connected <==> c.socket.Some?)
    && c.pendingConnectReject == (if c.state == Connecting then c.socket else None)
    && c.listening == (if c.socket.Some? then {c.socket.value} else {})
    && (c.target.Some? <==> c.tokenExpiresAt.Some?)
    && (c.socket.Some? ==>
          && c.socket.value < |c.attempts|
          && c.target == Some(c.attempts[c.socket.value].target)
          && c.tokenExpiresAt == Some(c.attempts[c.socket.value].now + ttl))
  }

  /** At most one heartbeat timer is live and it is the stored one. */
  ghost predicate TimersKept(c: Client) {
    && (forall t :: t in c.live ==> t < c.timers && c.heartbeatTimer == Some(t))
    && (c.heartbeatTimer.Some? ==> c.heartbeatTimer.value < c.timers)
    && (c.state == Connected ==> c.heartbeatTimer.Some? && c.live == {c.heartbeatTimer.value})
    && (c.state == Disconnected ==> c.heartbeatTimer.None? && c.live == {})
  }

  ghost predicate Inv(c: Client, ttl: int) {
    PromisesKept(c) && FieldsAgree(c, ttl) && TimersKept(c)
  }

  lemma RefusedConnectKeepsInv(c: Client, ttl: int, target: Target, now: int)
    requires Inv(c, ttl)
    ensures Inv(Step(c, ttl, Connect(target, now, false)), ttl)
  {
  }

  lemma ConnectKeepsInv(c: Client, ttl: int, target: Target, now: int)
    requires Inv(c, ttl)
    ensures Inv(Step(c, ttl, Connect(target, now, true)), ttl)
  {
  }

  lemma DisconnectKeepsInv(c: Client, ttl: int)
    requires Inv(c, ttl)
    ensures Inv(Step(c, ttl, Disconnect), ttl)
  {
  }

  lemma OpenKeepsInv(c: Client, ttl: int, s: nat)
    requires Inv(c, ttl)
    ensures Inv(Step(c, ttl, SocketOpened(s)), ttl)
  {
    if c.socket == Some(s) {
      assert s < |c.attempts|;
      if c.state == Connecting {
        assert c.pendingConnectReject == Some(s);
      }
    }
  }

  lemma CloseKeepsInv(c: Client, ttl: int, s: nat)
    requires Inv(c, ttl)
    ensures Inv(Step(c, ttl, SocketClosed(s)), ttl)
  {
    if c.socket == Some(s) {
      assert s < |c.attempts|;
      if c.state == Connecting {
        assert c.pendingConnectReject == Some(s);
      }
    }
  }

  lemma FailureKeepsInv(c: Client, ttl: int, s: nat)
    requires Inv(c, ttl)
    ensures Inv(Step(c, ttl, SocketFailed(s)), ttl)
  {
    if c.socket == Some(s) {
      assert s < |c.attempts|;
      if c.state == Connecting {
        assert c.pendingConnectReject == Some(s);
      }
    }
  }

  lemma TickKeepsInv(c: Client, ttl: int, t: nat)
    requires Inv(c, ttl)
    ensures Inv(Step(c, ttl, TimerFired(t)), ttl)
  {
  }

  /** Promises, fields and timers are in order after any events in any order. */
  lemma {:induction false} RunKeepsInv(c: Client, ttl: int, es: seq<Event>)
    requires Inv(c, ttl)
    ensures Inv(Run(c, ttl, es), ttl)
    decreases es
  {
    hide Inv, Step;
    if es != [] {
      StepKeepsInv(c, ttl, es[0]);
      RunKeepsInv(Step(c, ttl, es[0]), ttl, es[1..]);
    }
  }

  lemma StepKeepsInv(c: Client, ttl: int, e: Event)
    requires Inv(c, ttl)
    ensures Inv(Step(c, ttl, e), ttl)
  {
    hide Step, Inv;
    match e
    case Connect(target, now, socketMade) =>
      if socketMade {
        ConnectKeepsInv(c, ttl, target, now);
      } else {
        RefusedConnectKeepsInv(c, ttl, target, now);
      }
    case Disconnect => DisconnectKeepsInv(c, ttl);
    case SocketOpened(s) => OpenKeepsInv(c, ttl, s);
    case SocketClosed(s) => CloseKeepsInv(c, ttl, s);
    case SocketFailed(s) => FailureKeepsInv(c, ttl, s);
    case TimerFired(t) => TickKeepsInv(c, ttl, t);
  }

  lemma {:induction false} RunOfAppend(c: Client, ttl: int, a: seq<Event>, b: seq<Event>)
    ensures Run(c, ttl, a + b) == Run(Run(c, ttl, a), ttl, b)
    decreases a
  {
    hide Step;
    if a == [] {
      assert a + b == b;
    } else {
      assert (a + b)[1..] == a[1..] + b;
      RunOfAppend(Step(c, ttl, a[0]), ttl, a[1..], b);
    }
  }

  // ---------------------------------------------------------------- promises against the trace alone

  /** A settled promise keeps its verdict for ever. */
  lemma {:induction false} VerdictsAreFinal(c: Client, ttl: int, es: seq<Event>)
    ensures forall p :: p in c.verdicts ==>
              p in Run(c, ttl, es).verdicts && Run(c, ttl, es).verdicts[p] == c.verdicts[p]
    decreases es
  {
    hide Step;
    if es != [] {
      StepKeepsVerdicts(c, ttl, es[0]);
      VerdictsAreFinal(Step(c, ttl, es[0]), ttl, es[1..]);
    }
  }

  lemma StepKeepsVerdicts(c: Client, ttl: int, e: Event)
    ensures forall p :: p in c.verdicts ==> p in Step(c, ttl, e).verdicts && Step(c, ttl, e).verdicts[p] == c.verdicts[p]
  {
    StepSettles(c, ttl, e);
    hide Step, SettlingCall;
  }

  /** The call, of `resolve` or of a `reject`, that a step makes, with the promise it is made on. */
  function SettlingCall(c: Client, e: Event): Option<(nat, Verdict)> {
    match e
    case Connect(_, _, socketMade) => if socketMade then OnPending(c, Superseded) else Some((|c.attempts|, Refused))
    case Disconnect => OnPending(c, Cancelled)
    case SocketOpened(s) => if c.socket == Some(s) then Some((s, Opened)) else None
    case SocketClosed(s) => if c.socket == Some(s) && c.state == Connecting then OnPending(c, ClosedEarly) else None
    case SocketFailed(s) => if c.socket == Some(s) && c.state == Connecting then OnPending(c, Failed) else None
    case TimerFired(_) => None
  }

  function OnPending(c: Client, v: Verdict): Option<(nat, Verdict)> {
    match c.pendingConnectReject
    case None => None
    case Some(p) => Some((p, v))
  }

  /** A step changes the verdicts by its settling call and by nothing else. */
  lemma StepSettles(c: Client, ttl: int, e: Event)
    ensures Step(c, ttl, e).verdicts ==
            match SettlingCall(c, e)
            case None => c.verdicts
            case Some((p, v)) => if p in c.verdicts then c.verdicts else c.verdicts[p := v]
  {
    match e
    case Connect(_, _, _) =>
    case Disconnect =>
    case SocketOpened(_) =>
    case SocketClosed(_) =>
    case SocketFailed(_) =>
    case TimerFired(_) =>
  }

  /**
   * After any events in any order, the only step that calls again on a settled promise is a
   * repeated open event of the connected socket.
   */
  lemma ResettlesOnlyOnRepeatedOpen(ttl: int, es: seq<Event>, e: Event)
    ensures var c := Run(INITIAL, ttl, es);
            SettlingCall(c, e).Some? ==>
              (SettlingCall(c, e).value.0 in c.verdicts <==> c.state == Connected && c.socket.Some? && e == SocketOpened(c.socket.value))
  {
    RunKeepsInv(INITIAL, ttl, es);
    var c := Run(INITIAL, ttl, es);
    SettlesInOrder(c, ttl, e);
  }

  lemma SettlesInOrder(c: Client, ttl: int, e: Event)
    requires Inv(c, ttl)
    ensures SettlingCall(c, e).Some? ==>
              (SettlingCall(c, e).value.0 in c.verdicts <==> c.state == Connected && c.socket.Some? && e == SocketOpened(c.socket.value))
  {
  }

  /** The verdict of the attempt with socket `n`, read off the events after its connect call. */
  function Decide(es: seq<Event>, n: nat): Option<Verdict>
    decreases es
  {
    if es == [] then None
    else
      match es[0]
      case SocketOpened(s) => if s == n then Some(Opened) else Decide(es[1..], n)
      case SocketClosed(s) => if s == n then Some(ClosedEarly) else Decide(es[1..], n)
      case SocketFailed(s) => if s == n then Some(Failed) else Decide(es[1..], n)
      case Disconnect => Some(Cancelled)
      case Connect(_, _, socketMade) => if socketMade then Some(Superseded) else Decide(es[1..], n)
      case TimerFired(_) => Decide(es[1..], n)
  }

  function VerdictOf(c: Client, p: nat): Option<Verdict> {
    if p in c.verdicts then Some(c.verdicts[p]) else None
  }

  ghost predicate Waiting(c: Client, n: nat) {
    c.state == Connecting && c.socket == Some(n) && c.pendingConnectReject == Some(n) && n < |c.attempts| && n !in c.verdicts
  }

  /** While an attempt waits, the next event either gives it the verdict of the trace or leaves it waiting. */
  lemma OneEventDecides(c: Client, ttl: int, e: Event, n: nat)
    requires Waiting(c, n)
    ensures var now := Decide([e], n);
            if now.None? then Waiting(Step(c, ttl, e), n)
            else VerdictOf(Step(c, ttl, e), n) == now
  {
    assert [e][1..] == [];
  }

  lemma DecideByFirst(es: seq<Event>, n: nat)
    requires es != []
    ensures Decide(es, n) == (if Decide([es[0]], n).Some? then Decide([es[0]], n) else Decide(es[1..], n))
  {
    assert [es[0]][1..] == [];
  }

  lemma {:induction false} WaitingIsDecidedByTrace(c: Client, ttl: int, es: seq<Event>, n: nat)
    requires Waiting(c, n)
    ensures VerdictOf(Run(c, ttl, es), n) == Decide(es, n)
    decreases es
  {
    hide Step, Decide, Waiting;
    if es == [] {
      WaitingHasNoVerdict(c, n);
    } else {
      OneEventDecides(c, ttl, es[0], n);
      DecideByFirst(es, n);
      if Decide([es[0]], n).Some? {
        VerdictsAreFinal(Step(c, ttl, es[0]), ttl, es[1..]);
      } else {
        WaitingIsDecidedByTrace(Step(c, ttl, es[0]), ttl, es[1..], n);
      }
    }
  }

  lemma WaitingHasNoVerdict(c: Client, n: nat)
    requires Waiting(c, n)
    ensures VerdictOf(c, n) == None && Decide([], n) == None
  {
  }

  /**
   * No lost and no wrongly settled connect: after any run, an attempt has exactly the
   * verdict that the events after its connect call give it, and none while they give none.
   */
  lemma ConnectIsDecidedByTrace(ttl: int, before: seq<Event>, target: Target, now: int, socketMade: bool, after: seq<Event>)
    ensures var n := |Run(INITIAL, ttl, before).attempts|;
            VerdictOf(Run(INITIAL, ttl, before + [Connect(target, now, socketMade)] + after), n)
            == if socketMade then Decide(after, n) else Some(Refused)
  {
    var e := Connect(target, now, socketMade);
    var c := Run(INITIAL, ttl, before);
    RunKeepsInv(INITIAL, ttl, before);
    assert before + [e] + after == before + ([e] + after);
    RunOfAppend(INITIAL, ttl, before, [e] + after);
    assert ([e] + after)[1..] == after;
    var d := Step(c, ttl, e);
    AfterConnect(c, ttl, target, now, socketMade);
    if socketMade {
      WaitingIsDecidedByTrace(d, ttl, after, |c.attempts|);
    } else {
      VerdictsAreFinal(d, ttl, after);
    }
  }

  lemma AfterConnect(c: Client, ttl: int, target: Target, now: int, socketMade: bool)
    requires Inv(c, ttl)
    ensures var d := Step(c, ttl, Connect(target, now, socketMade));
            var n := |c.attempts|;
            if socketMade then Waiting(d, n) else VerdictOf(d, n) == Some(Refused)
  {
  }

  // ---------------------------------------------------------------- superseded sockets, failures, timers

  predicate IsFrom(e: Event, n: nat) {
    e == SocketOpened(n) || e == SocketClosed(n) || e == SocketFailed(n)
  }

  function WithoutEventsOf(es: seq<Event>, n: nat): seq<Event> {
    if es == [] then []
    else (if IsFrom(es[0], n) then [] else [es[0]]) + WithoutEventsOf(es[1..], n)
  }

  lemma StepOfOtherSocket(c: Client, ttl: int, e: Event, n: nat)
    requires c.socket != Some(n) && n < |c.attempts|
    ensures IsFrom(e, n) ==> Step(c, ttl, e) == c
    ensures Step(c, ttl, e).socket != Some(n) && n < |Step(c, ttl, e).attempts|
  {
  }

  /** A socket that is no longer the current one never acts again: dropping its events changes no run. */
  lemma {:induction false} SupersededSocketCannotAct(c: Client, ttl: int, es: seq<Event>, n: nat)
    requires c.socket != Some(n) && n < |c.attempts|
    ensures Run(c, ttl, es) == Run(c, ttl, WithoutEventsOf(es, n))
    decreases es
  {
    hide Step;
    if es != [] {
      StepOfOtherSocket(c, ttl, es[0], n);
      SupersededSocketCannotAct(Step(c, ttl, es[0]), ttl, es[1..], n);
      if !IsFrom(es[0], n) {
        assert ([es[0]] + WithoutEventsOf(es[1..], n))[1..] == WithoutEventsOf(es[1..], n);
      } else {
        assert [] + WithoutEventsOf(es[1..], n) == WithoutEventsOf(es[1..], n);
      }
    }
  }

  /**
   * An attempt that ends without opening leaves no target and no expiry and is rejected;
   * a connection that closes after opening keeps its target for the stored endpoint.
   */
  lemma EndOfConnection(c: Client, ttl: int, e: Event)
    requires Inv(c, ttl) && Step(c, ttl, e).state == Disconnected
    ensures var d := Step(c, ttl, e);
            && (c.state == Connecting ==>
                  && d.target.None? && d.tokenExpiresAt.None?
                  && VerdictOf(d, c.socket.value).Some? && VerdictOf(d, c.socket.value) != Some(Opened))
            && (c.state == Connected && e != Disconnect ==> d.target == c.target && d.tokenExpiresAt == c.tokenExpiresAt)
  {
    match e
    case Connect(_, _, _) =>
    case Disconnect =>
    case SocketOpened(_) =>
    case SocketClosed(_) =>
    case SocketFailed(_) =>
    case TimerFired(_) =>
  }

  // ---------------------------------------------------------------- the token against the trace alone

  /** Nothing is kept and nothing is under way. */
  ghost predicate Idle(c: Client) {
    && c.state == Disconnected && c.socket == None && c.target == None && c.tokenExpiresAt == None
    && c.pendingConnectReject == None && c.heartbeatTimer == None
  }

  /** Disconnecting clears the token and all the rest, whatever the client was doing. */
  lemma DisconnectClears(c: Client, ttl: int)
    ensures Idle(Step(c, ttl, Disconnect))
    ensures forall t :: t in Step(c, ttl, Disconnect).live ==> t in c.live && c.heartbeatTimer != Some(t)
    ensures Inv(c, ttl) ==> Step(c, ttl, Disconnect).live == {} && Step(c, ttl, Disconnect).listening == {}
  {
  }

  predicate IsConnect(e: Event) {
    e.Connect? && e.socketMade
  }

  lemma {:induction false} IdleWithoutConnect(c: Client, ttl: int, es: seq<Event>)
    requires Idle(c) && forall e :: e in es ==> !IsConnect(e)
    ensures Idle(Run(c, ttl, es))
    decreases es
  {
    if es != [] {
      assert es[0] in es && !IsConnect(es[0]);
      IdleWithoutConnect(Step(c, ttl, es[0]), ttl, es[1..]);
    }
  }

  ghost predicate Holds(c: Client, a: Attempt, ttl: int) {
    c.target == Some(a.target) && c.tokenExpiresAt == Some(a.now + ttl)
  }

  ghost predicate Up(c: Client, n: nat) {
    c.state == Connected && c.socket == Some(n)
  }

  ghost predicate Dropped(c: Client) {
    c.state == Disconnected && c.socket == None
  }

  /** Neither disconnected nor connected anew. */
  ghost predicate Quiet(es: seq<Event>) {
    forall e :: e in es ==> !e.Disconnect? && !IsConnect(e)
  }

  lemma {:induction false} DroppedStays(c: Client, ttl: int, es: seq<Event>, a: Attempt)
    requires Dropped(c) && Holds(c, a, ttl) && Quiet(es)
    ensures Dropped(Run(c, ttl, es)) && Holds(Run(c, ttl, es), a, ttl)
    decreases es
  {
    if es != [] {
      assert es[0] in es;
      DroppedStays(Step(c, ttl, es[0]), ttl, es[1..], a);
    }
  }

  /** An open connection keeps its token, closed by its socket or not. */
  lemma {:induction false} UpUntilClosed(c: Client, ttl: int, es: seq<Event>, n: nat, a: Attempt)
    requires Up(c, n) && Holds(c, a, ttl) && Quiet(es)
    ensures var d := Run(c, ttl, es);
            Holds(d, a, ttl) && if SocketClosed(n) in es then Dropped(d) else Up(d, n)
    decreases es
  {
    if es != [] {
      assert es[0] in es && es == [es[0]] + es[1..];
      if es[0] == SocketClosed(n) {
        DroppedStays(Step(c, ttl, es[0]), ttl, es[1..], a);
      } else {
        UpUntilClosed(Step(c, ttl, es[0]), ttl, es[1..], n, a);
      }
    }
  }

  /** The socket opens, and later closes. */
  ghost predicate OpensAndCloses(es: seq<Event>, n: nat) {
    exists i, j :: 0 <= i < j < |es| && es[i] == SocketOpened(n) && es[j] == SocketClosed(n)
  }

  /** What the events after its connect call make of an attempt. */
  ghost predicate IsOutcome(d: Client, es: seq<Event>, n: nat, a: Attempt, ttl: int) {
    match Decide(es, n)
    case None => Waiting(d, n) && Holds(d, a, ttl)
    case Some(v) =>
      if v == Opened then Holds(d, a, ttl) && if OpensAndCloses(es, n) then Dropped(d) else Up(d, n)
      else Idle(d)
  }

  lemma OpensAndClosesOfCons(e: Event, es: seq<Event>, n: nat)
    ensures e == SocketOpened(n) ==> (OpensAndCloses([e] + es, n) <==> SocketClosed(n) in es)
    ensures e != SocketOpened(n) ==> (OpensAndCloses([e] + es, n) <==> OpensAndCloses(es, n))
  {
    var all := [e] + es;
    if i, j :| 0 <= i < j < |all| && all[i] == SocketOpened(n) && all[j] == SocketClosed(n) {
      assert es[j - 1] == SocketClosed(n);
      if i > 0 {
        assert es[i - 1] == SocketOpened(n);
      }
    }
    if SocketClosed(n) in es {
      var j :| 0 <= j < |es| && es[j] == SocketClosed(n);
      assert all[j + 1] == SocketClosed(n) && all[0] == e;
    }
    if i, j :| 0 <= i < j < |es| && es[i] == SocketOpened(n) && es[j] == SocketClosed(n) {
      assert all[i + 1] == SocketOpened(n) && all[j + 1] == SocketClosed(n);
    }
  }

  lemma EndOfAttempt(c: Client, ttl: int, e: Event, n: nat, a: Attempt)
    requires Waiting(c, n) && Holds(c, a, ttl) && !e.Disconnect? && !IsConnect(e)
    ensures var d := Step(c, ttl, e);
            if e == SocketOpened(n) then Up(d, n) && Holds(d, a, ttl)
            else if e == SocketClosed(n) || e == SocketFailed(n) then Idle(d)
            else Waiting(d, n) && Holds(d, a, ttl)
  {
  }

  lemma {:induction false} OutcomeOfAttempt(c: Client, ttl: int, es: seq<Event>, n: nat, a: Attempt)
    requires Waiting(c, n) && Holds(c, a, ttl) && Quiet(es)
    ensures IsOutcome(Run(c, ttl, es), es, n, a, ttl)
    decreases es
  {
    hide Step, OpensAndCloses, Waiting, Holds, Idle, Up;
    if es != [] {
      var (e, rest) := (es[0], es[1..]);
      assert e in es && [e] + rest == es;
      EndOfAttempt(c, ttl, e, n, a);
      OpensAndClosesOfCons(e, rest, n);
      if e == SocketOpened(n) {
        UpUntilClosed(Step(c, ttl, e), ttl, rest, n, a);
      } else if e == SocketClosed(n) || e == SocketFailed(n) {
        IdleWithoutConnect(Step(c, ttl, e), ttl, rest);
      } else {
        OutcomeOfAttempt(Step(c, ttl, e), ttl, rest, n, a);
      }
    }
  }

  /** The events are those before the last connect that made a socket, it, and those after, without a disconnect. */
  ghost predicate EndsWithAttempt(es: seq<Event>, before: seq<Event>, a: Attempt, after: seq<Event>) {
    es == before + [Connect(a.target, a.now, true)] + after && Quiet(after)
  }

  /** Where there is no such connect, the last connect, if there is one, came before a disconnect. */
  lemma {:induction false} LastAttempt(es: seq<Event>)
    ensures || (exists before, a, after :: EndsWithAttempt(es, before, a, after))
            || (forall e :: e in es ==> !IsConnect(e))
            || (exists before, after :: es == before + [Disconnect] + after && forall e :: e in after ==> !IsConnect(e))
  {
    if es != [] {
      var n := |es| - 1;
      var (init, e) := (es[..n], es[n]);
      assert es == init + [e];
      LastAttempt(init);
      if e.Disconnect? {
        assert es == init + [Disconnect] + [];
      } else if IsConnect(e) {
        assert EndsWithAttempt(es, init, Attempt(e.target, e.now), []);
      } else if before, a, after :| EndsWithAttempt(init, before, a, after) {
        assert es == before + [Connect(a.target, a.now, true)] + (after + [e]);
        assert EndsWithAttempt(es, before, a, after + [e]);
      } else if before, after :| init == before + [Disconnect] + after && forall x :: x in after ==> !IsConnect(x) {
        assert es == before + [Disconnect] + (after + [e]);
      }
    }
  }

  function Calls(es: seq<Event>): nat {
    if es == [] then 0 else (if es[0].Connect? then 1 else 0) + Calls(es[1..])
  }

  lemma {:induction false} AttemptsAreCalls(c: Client, ttl: int, es: seq<Event>)
    ensures |Run(c, ttl, es).attempts| == |c.attempts| + Calls(es)
    decreases es
  {
    if es != [] {
      AttemptsAreCalls(Step(c, ttl, es[0]), ttl, es[1..]);
    }
  }

  lemma OutcomeOfRun(ttl: int, es: seq<Event>, before: seq<Event>, a: Attempt, after: seq<Event>)
    requires EndsWithAttempt(es, before, a, after)
    ensures IsOutcome(Run(INITIAL, ttl, es), after, Calls(before), a, ttl)
  {
    var e := Connect(a.target, a.now, true);
    var c := Run(INITIAL, ttl, before);
    RunKeepsInv(INITIAL, ttl, before);
    AttemptsAreCalls(INITIAL, ttl, before);
    assert es == before + ([e] + after);
    RunOfAppend(INITIAL, ttl, before, [e] + after);
    assert ([e] + after)[1..] == after;
    AfterConnect(c, ttl, a.target, a.now, true);
    assert Holds(Step(c, ttl, e), a, ttl);
    hide Step, Inv, IsOutcome, Quiet;
    OutcomeOfAttempt(Step(c, ttl, e), ttl, after, Calls(before), a);
  }

  lemma IdleOfRun(ttl: int, es: seq<Event>)
    requires forall before, a, after :: !EndsWithAttempt(es, before, a, after)
    ensures Idle(Run(INITIAL, ttl, es))
  {
    LastAttempt(es);
    if forall e :: e in es ==> !IsConnect(e) {
      IdleWithoutConnect(INITIAL, ttl, es);
    } else {
      var before, after :| es == before + [Disconnect] + after && forall e :: e in after ==> !IsConnect(e);
      var c := Run(INITIAL, ttl, before);
      assert es == before + ([Disconnect] + after);
      RunOfAppend(INITIAL, ttl, before, [Disconnect] + after);
      assert ([Disconnect] + after)[1..] == after;
      DisconnectClears(c, ttl);
      IdleWithoutConnect(Step(c, ttl, Disconnect), ttl, after);
    }
  }

  /**
   * The pair token, with its expiry, is in memory exactly if after the last attempt nothing disconnected
   * the client and the attempt was not ended before it opened.
   */
  lemma TokenIsKeptExactly(ttl: int, es: seq<Event>, target: Target, expiry: int)
    ensures var c := Run(INITIAL, ttl, es);
            (c.target == Some(target) && c.tokenExpiresAt == Some(expiry)) <==>
              exists before, after ::
                && EndsWithAttempt(es, before, Attempt(target, expiry - ttl), after)
                && (Decide(after, Calls(before)) == None || Decide(after, Calls(before)) == Some(Opened))
  {
    var c := Run(INITIAL, ttl, es);
    hide Run, Decide, IsOutcome, EndsWithAttempt;
    if before, a, after :| EndsWithAttempt(es, before, a, after) {
      OutcomeOfRun(ttl, es, before, a, after);
      HoldsExactly(c, after, Calls(before), a, ttl);
      if c.target == Some(target) && c.tokenExpiresAt == Some(expiry) {
        assert a == Attempt(target, expiry - ttl);
      }
    } else {
      IdleOfRun(ttl, es);
    }
    if before, after :|
        && EndsWithAttempt(es, before, Attempt(target, expiry - ttl), after)
        && (Decide(after, Calls(before)) == None || Decide(after, Calls(before)) == Some(Opened)) {
      OutcomeOfRun(ttl, es, before, Attempt(target, expiry - ttl), after);
      HoldsExactly(c, after, Calls(before), Attempt(target, expiry - ttl), ttl);
    }
  }

  lemma HoldsExactly(c: Client, es: seq<Event>, n: nat, a: Attempt, ttl: int)
    requires IsOutcome(c, es, n, a, ttl)
    ensures c.target.Some? <==> Decide(es, n) == None || Decide(es, n) == Some(Opened)
    ensures c.target.Some? ==> Holds(c, a, ttl)
  {
    hide Decide, OpensAndCloses;
  }

  /**
   * A disconnected client still holds a token exactly if the last attempt opened and its socket then closed,
   * with neither a disconnect nor a new attempt since the attempt was made.
   */
  lemma TokenOutlivesConnectionExactly(ttl: int, es: seq<Event>, target: Target)
    ensures var c := Run(INITIAL, ttl, es);
            (c.state == Disconnected && c.target == Some(target)) <==>
              exists before, a, after ::
                && EndsWithAttempt(es, before, a, after) && a.target == target
                && Decide(after, Calls(before)) == Some(Opened) && OpensAndCloses(after, Calls(before))
  {
    var c := Run(INITIAL, ttl, es);
    hide Run, Decide, OpensAndCloses;
    if before, a, after :| EndsWithAttempt(es, before, a, after) {
      OutcomeOfRun(ttl, es, before, a, after);
    } else {
      IdleOfRun(ttl, es);
    }
    if before, a, after :|
        && EndsWithAttempt(es, before, a, after) && a.target == target
        && Decide(after, Calls(before)) == Some(Opened) && OpensAndCloses(after, Calls(before)) {
      OutcomeOfRun(ttl, es, before, a, after);
    }
  }

  /** A firing timer is the only live one; it schedules its successor exactly when connected. */
  lemma HeartbeatChain(c: Client, ttl: int, t: nat)
    requires Inv(c, ttl) && t in c.live
    ensures var d := Step(c, ttl, TimerFired(t));
            && c.live == {t} && c.state != Disconnected
            && d.live == (if c.state == Connected then {c.timers} else {})
            && d.timers == (if c.state == Connected then c.timers + 1 else c.timers)
  {
  }

  /** Reconnecting an already connected client never doubles the heartbeat. */
  lemma ReconnectKeepsOneHeartbeat(c: Client, ttl: int, target: Target, now: int, between: seq<Event>)
    requires Inv(c, ttl) && c.state == Connected
    requires forall e :: e in between ==> e.TimerFired?
    ensures var es := [Connect(target, now, true)] + between + [SocketOpened(|c.attempts|)];
            var d := Run(c, ttl, es);
            d.state == Connected && |d.live| == 1 && d.live !! c.live
  {
    var e := Connect(target, now, true);
    var n := |c.attempts|;
    var d1 := Step(c, ttl, e);
    StepKeepsInv(c, ttl, e);
    AfterConnect(c, ttl, target, now, true);
    TicksKeepWaiting(d1, ttl, between, n);
    RunKeepsInv(d1, ttl, between);
    var d2 := Run(d1, ttl, between);
    var es := [e] + between + [SocketOpened(n)];
    assert es[1..] == between + [SocketOpened(n)];
    RunOfAppend(d1, ttl, between, [SocketOpened(n)]);
    assert [SocketOpened(n)][1..] == [];
    OpenStartsHeartbeat(d2, ttl, n);
  }

  lemma {:induction false} TicksKeepWaiting(c: Client, ttl: int, es: seq<Event>, n: nat)
    requires Waiting(c, n)
    requires forall e :: e in es ==> e.TimerFired?
    ensures Waiting(Run(c, ttl, es), n) && Run(c, ttl, es).timers == c.timers
    decreases es
  {
    if es != [] {
      assert es[0] in es && es[0].TimerFired?;
      TicksKeepWaiting(Step(c, ttl, es[0]), ttl, es[1..], n);
    }
  }

  lemma OpenStartsHeartbeat(c: Client, ttl: int, n: nat)
    requires Waiting(c, n) && Inv(c, ttl)
    ensures var d := Step(c, ttl, SocketOpened(n));
            d.state == Connected && d.live == {c.timers}
  {
  }
}
