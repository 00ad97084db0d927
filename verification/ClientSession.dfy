/**
 The client's side of one RPC session: requests and replies are matched by message
 id, a timer pings a silent server and then gives up on it, and any number of
 threads start, await, poll and cancel RPCs under one mutex.
 */
module ClientSession {

  type Message = seq<int>

  datatype Option<T> = None | Some(value: T)

  datatype Error = NoSocket | NotConnected | Disconnected | TimedOut

  datatype Status = Waiting | HasReply | Canceled

  datatype Response = Response(status: Status, reply: Message, hasWaiter: bool)

  /** How an RPC ended. */
  datatype Outcome = Replied(reply: Message) | Failed(error: Error) | CanceledByUser

  const PING_MESSAGE_ID: nat := 0
  const WORD: int := 0x1_0000_0000

  function Wrap(n: int): (w: int)
    ensures 0 <= w < WORD
  {
    n % WORD
  }

  // ------------------------------------------------- one critical section at a time

  datatype Session = Session(
    nextMessageId: nat,
    responses: map<nat, Response>,
    error: Option<Error>,
    numActive: int,
    activePing: bool,
    connected: bool,
    armed: bool)

  function Fresh(error: Option<Error>): Session {
    Session(1, map[], error, 0, false, error.None?, false)
  }

  /** sendRequest; the new RPC's id is the old nextMessageId. */
  function Send(s: Session): Session {
    var n := Wrap(s.numActive + 1);
    var s1 := s.(nextMessageId := s.nextMessageId + 1,
                 responses := s.responses[s.nextMessageId := Response(Waiting, [], false)],
                 numActive := n);
    if n == 1 then s1.(activePing := false, armed := true) else s1
  }

  /** onReceiveMessage */
  function Receive(s: Session, id: nat, m: Message): Session {
    if id == PING_MESSAGE_ID then
      if s.numActive > 0 && s.activePing then s.(activePing := false, armed := true) else s
    else if id !in s.responses || s.responses[id].status == HasReply then s
    else
      var n := Wrap(s.numActive - 1);
      s.(numActive := n, armed := n != 0,
         responses := s.responses[id := s.responses[id].(status := HasReply, reply := m)])
  }

  /** onDisconnect */
  function Disconnect(s: Session): Session {
    if s.error.None? then s.(error := Some(Disconnected)) else s
  }

  /** handleTimerEvent */
  function HandleTimer(s: Session): Session {
    if !s.connected || s.numActive == 0 || s.error.Some? then s
    else if !s.activePing then s.(activePing := true, armed := true)
    else s.(error := Some(TimedOut))
  }

  /** cancel */
  function Cancel(s: Session, id: nat): Session {
    if id !in s.responses then s
    else
      var responses := if s.responses[id].hasWaiter
                       then s.responses[id := s.responses[id].(status := Canceled)]
                       else s.responses - {id};
      s.(responses := responses, numActive := Wrap(s.numActive - 1))
  }

  /** What update finds for an RPC: its outcome, or None while it is not ready. */
  function Ready(s: Session, id: nat): Option<Outcome> {
    if id !in s.responses then None
    else if s.responses[id].status == HasReply then Some(Replied(s.responses[id].reply))
    else if s.error.Some? then Some(Failed(s.error.value))
    else None
  }

  /** update */
  function Update(s: Session, id: nat): Session {
    if Ready(s, id).Some? then s.(responses := s.responses - {id}) else s
  }

  /** A waiter has to sleep. */
  predicate Blocks(s: Session, id: nat) {
    id in s.responses && s.responses[id].status == Waiting && s.error.None?
  }

  /** One turn of the loop in wait, up to the point where it sleeps or returns. */
  function WaitTurn(s: Session, id: nat): Session {
    if id !in s.responses then s
    else if s.responses[id].status == Canceled then s.(responses := s.responses - {id})
    else if Blocks(s, id) then s.(responses := s.responses[id := s.responses[id].(hasWaiter := true)])
    else s
  }

  /** What a waiter does first when it wakes. */
  function Woken(s: Session, id: nat): Session {
    if id in s.responses then s.(responses := s.responses[id := s.responses[id].(hasWaiter := false)]) else s
  }

  // ------------------------------------------------------------------- whole runs

  /**
   The session with its surroundings: a timer event taken from epoll whose handler
   has not run yet, the waiters asleep and those notified, the outcome each RPC has
   reported, the first message received for each RPC, and two tallies: decrements of
   the counter for an RPC no longer waiting, and waiting RPCs dropped without one.
   */
  datatype System = System(
    session: Session,
    inFlight: bool,
    sleeping: set<nat>,
    waking: set<nat>,
    outcomes: map<nat, Outcome>,
    first: map<nat, Message>,
    excess: nat,
    abandoned: nat)

  datatype Step =
    | SendStep
    | ReceiveStep(id: nat, m: Message)
    | DisconnectStep
    | TimerFires
    | TimerStep
    | CancelStep(id: nat)
    | UpdateStep(id: nat)
    | WaitStep(id: nat)
    | WakeStep(id: nat)

  function Init(error: Option<Error>): System {
    System(Fresh(error), false, {}, {}, map[], map[], 0, 0)
  }

  function WaitingIds(s: Session): set<nat> {
    set id | id in s.responses && s.responses[id].status == Waiting
  }

  /** An RPC that was issued and has not reported an outcome: its handle is not ready. */
  predicate Open(y: System, id: nat) {
    1 <= id < y.session.nextMessageId && id !in y.outcomes
  }

  /** Handles cancel and poll only while they are not ready, and have at most one waiter. */
  predicate Enabled(y: System, step: Step) {
    match step
    case SendStep => |WaitingIds(y.session)| + 1 < WORD
    case TimerFires => y.session.armed
    case TimerStep => y.inFlight
    case CancelStep(id) => Open(y, id)
    case UpdateStep(id) => Open(y, id)
    case WaitStep(id) => Open(y, id) && id !in y.sleeping && id !in y.waking
    case WakeStep(id) => id in y.sleeping || id in y.waking
    case _ => y.session.connected
  }

  function Notify(y: System, ids: set<nat>): System {
    y.(sleeping := y.sleeping - ids, waking := y.waking + (y.sleeping * ids))
  }

  /** When an error is set, the waiters of every response are notified. */
  function AfterError(y: System, s: Session): System {
    var y1 := y.(session := s);
    if s.error != y.session.error then Notify(y1, s.responses.Keys) else y1
  }

  function Sleep(y: System, id: nat): System {
    if Blocks(y.session, id) then y.(session := WaitTurn(y.session, id), sleeping := y.sleeping + {id})
    else y.(session := WaitTurn(y.session, id))
  }

  function WakeUp(y: System, id: nat): System {
    y.(session := Woken(y.session, id), sleeping := y.sleeping - {id}, waking := y.waking - {id})
  }

  function ApplyReceive(y: System, id: nat, m: Message): System {
    var s := y.session;
    var y1 := y.(session := Receive(s, id, m));
    var y2 := if Issued(s, id) && id !in y.first then y1.(first := y.first[id := m]) else y1;
    if Accepts(s, id) then
      Notify(if s.responses[id].status == Canceled then y2.(excess := y.excess + 1) else y2, {id})
    else y2
  }

  /** A message with this id is taken as a reply. */
  predicate Accepts(s: Session, id: nat) {
    id != PING_MESSAGE_ID && id in s.responses && s.responses[id].status != HasReply
  }

  predicate Issued(s: Session, id: nat) { 1 <= id < s.nextMessageId }

  function ApplyCancel(y: System, id: nat): System {
    var s := y.session;
    var y1 := y.(session := Cancel(s, id), outcomes := y.outcomes[id := CanceledByUser]);
    if id !in s.responses then y1
    else
      var y2 := if s.responses[id].status == Waiting then y1 else y1.(excess := y.excess + 1);
      if s.responses[id].hasWaiter then Notify(y2, {id}) else y2
  }

  function ApplyUpdate(y: System, id: nat): System {
    var s := y.session;
    if Ready(s, id).None? then y
    else
      y.(session := Update(s, id), outcomes := y.outcomes[id := Ready(s, id).value],
         abandoned := y.abandoned + if s.responses[id].status == Waiting then 1 else 0)
  }

  function Apply(y: System, step: Step): System {
    match step
    case SendStep => y.(session := Send(y.session))
    case ReceiveStep(id, m) => ApplyReceive(y, id, m)
    case DisconnectStep => AfterError(y, Disconnect(y.session))
    case TimerFires => y.(session := y.session.(armed := false), inFlight := true)
    case TimerStep => AfterError(y, HandleTimer(y.session)).(inFlight := false)
    case CancelStep(id) => ApplyCancel(y, id)
    case UpdateStep(id) => ApplyUpdate(y, id)
    case WaitStep(id) => Sleep(y, id)
    case WakeStep(id) => Sleep(WakeUp(y, id), id)
  }

  /** The session, and on each response's condition variable the waiters asleep and those notified. */
  class ClientSession {
    var nextMessageId: nat
    var responses: map<nat, Response>
    var error: Option<Error>
    var numActive: int
    var activePing: bool
    const connected: bool
    var armed: bool
    ghost var sleeping: set<nat>
    ghost var waking: set<nat>

    function View(): Session
      reads this
    {
      Session(nextMessageId, responses, error, numActive, activePing, connected, armed)
    }

    /** The system is in this session's state, whatever its history. */
    ghost predicate Shows(y: System)
      reads this
    {
      y.session == View() && y.sleeping == sleeping && y.waking == waking
    }

    /** The results of creating and of connecting the socket are given. */
    constructor (socketMade: bool, connectMade: bool)
      ensures Shows(Init(if !socketMade then Some(NoSocket) else if !connectMade then Some(NotConnected) else None))
    {
      nextMessageId, responses, error, numActive, activePing, armed := 1, map[], None, 0, false, false;
      connected := socketMade && connectMade;
      sleeping, waking := {}, {};
      if !socketMade {
        error := Some(NoSocket);
      } else if !connectMade {
        error := Some(NotConnected);
      }
    }

    method SendRequest() returns (id: nat)
      modifies this
      ensures forall y :: old(Shows(y)) ==> Shows(Apply(y, SendStep))
      ensures View() == Send(old(View())) && id == old(nextMessageId)
    {
      id := nextMessageId;
      nextMessageId := nextMessageId + 1;
      responses := responses[id := Response(Waiting, [], false)];
      numActive := Wrap(numActive + 1);
      if numActive == 1 {
        activePing := false;
        armed := true;
      }
    }

    /** response.ready.notify_all() */
    ghost method NotifyAll(id: nat)
      modifies this`sleeping, this`waking
      ensures sleeping == old(sleeping) - {id} && waking == old(waking) + (old(sleeping) * {id})
    {
      waking := waking + (sleeping * {id});
      sleeping := sleeping - {id};
    }

    /** The loops that notify the waiters of every response. */
    method NotifyEverybody()
      modifies this`sleeping, this`waking
      ensures sleeping == old(sleeping) - responses.Keys
      ensures waking == old(waking) + (old(sleeping) * responses.Keys)
    {
      var todo := responses.Keys;
      while todo != {}
        invariant todo <= responses.Keys
        invariant sleeping == old(sleeping) - (responses.Keys - todo)
        invariant waking == old(waking) + (old(sleeping) * (responses.Keys - todo))
      {
        var id :| id in todo;
        NotifyAll(id);
        todo := todo - {id};
      }
    }

    method OnReceiveMessage(id: nat, m: Message)
      modifies this
      ensures forall y :: old(Shows(y)) ==> Shows(Apply(y, ReceiveStep(id, m)))
      ensures View() == Receive(old(View()), id, m)
    {
      if id == PING_MESSAGE_ID {
        if numActive > 0 && activePing {
          activePing := false;
          armed := true;
        }
        return;
      }
      if id !in responses { return; }
      if responses[id].status == HasReply { return; }
      numActive := Wrap(numActive - 1);
      if numActive == 0 {
        armed := false;
      } else {
        armed := true;
      }
      responses := responses[id := responses[id].(status := HasReply)];
      responses := responses[id := responses[id].(reply := m)];
      assert responses == old(responses)[id := responses[id]];
      assert View() == Receive(old(View()), id, m);
      NotifyAll(id);
    }

    method OnDisconnect()
      modifies this
      ensures forall y :: old(Shows(y)) ==> Shows(Apply(y, DisconnectStep))
      ensures View() == Disconnect(old(View()))
    {
      if error.None? {
        error := Some(Disconnected);
        NotifyEverybody();
      }
    }

    method HandleTimerEvent() returns (pinged: bool)
      modifies this
      ensures forall y :: old(Shows(y)) ==> Shows(Apply(y, TimerStep))
      ensures View() == HandleTimer(old(View()))
      ensures pinged <==> !old(activePing) && activePing
    {
      pinged := false;
      if !connected || numActive == 0 || error.Some? { return; }
      if !activePing {
        activePing := true;
        pinged := true;
        armed := true;
      } else {
        error := Some(TimedOut);
        NotifyEverybody();
      }
    }

    method CancelRPC(id: nat)
      modifies this
      ensures forall y :: old(Shows(y)) ==> Shows(Apply(y, CancelStep(id)))
      ensures View() == Cancel(old(View()), id)
    {
      if id !in responses { return; }
      if responses[id].hasWaiter {
        responses := responses[id := responses[id].(status := Canceled)];
        NotifyAll(id);
      } else {
        responses := responses - {id};
      }
      numActive := Wrap(numActive - 1);
    }

    method UpdateRPC(id: nat) returns (outcome: Option<Outcome>)
      modifies this
      ensures forall y :: old(Shows(y)) ==> Shows(Apply(y, UpdateStep(id)))
      ensures View() == Update(old(View()), id) && outcome == Ready(old(View()), id)
    {
      if id !in responses { return None; }
      if responses[id].status == HasReply {
        outcome := Some(Replied(responses[id].reply));
      } else if error.Some? {
        outcome := Some(Failed(error.value));
      } else {
        return None;
      }
      responses := responses - {id};
    }

    /** wait() from the top of its loop until it sleeps or returns. */
    method WaitUntilBlocked(id: nat) returns (blocked: bool)
      modifies this
      ensures forall y :: old(Shows(y)) ==> Shows(Apply(y, WaitStep(id)))
      ensures View() == WaitTurn(old(View()), id) && (blocked <==> Blocks(old(View()), id))
      ensures sleeping == old(sleeping) + (if blocked then {id} else {}) && waking == old(waking)
    {
      blocked := false;
      if id !in responses { return; }
      if responses[id].status == HasReply {
        return;
      } else if responses[id].status == Canceled {
        responses := responses - {id};
        return;
      } else if error.Some? {
        return;
      }
      responses := responses[id := responses[id].(hasWaiter := true)];
      sleeping := sleeping + {id};
      blocked := true;
    }

    /** wait() from where its sleep ends. */
    method WakeFromWait(id: nat) returns (blocked: bool)
      modifies this
      ensures forall y :: old(Shows(y)) ==> Shows(Apply(y, WakeStep(id)))
      ensures View() == WaitTurn(Woken(old(View()), id), id) && (blocked <==> Blocks(old(View()), id))
    {
      sleeping, waking := sleeping - {id}, waking - {id};
      if id in responses { responses := responses[id := responses[id].(hasWaiter := false)]; }
      blocked := WaitUntilBlocked(id);
    }
  }

  ghost predicate Run(y: System, steps: seq<Step>, z: System)
    decreases |steps|
  {
    if steps == [] then y == z
    else Enabled(y, steps[0]) && Run(Apply(y, steps[0]), steps[1..], z)
  }

  ghost predicate Reachable(y: System) {
    exists error, steps :: Run(Init(error), steps, y)
  }

  // -------------------------------------------------------------------- invariants

  /** The counter, up to the two tallies. */
  ghost predicate CounterInv(y: System) {
    && y.session.numActive == Wrap(|WaitingIds(y.session)| + y.abandoned - y.excess)
    && |WaitingIds(y.session)| < WORD
    && (y.session.error.None? ==> y.abandoned == 0)
  }

  /** Ids in use were issued; an RPC that is not ready is waiting or has the first message received for it. */
  ghost predicate IdsInv(y: System) {
    && y.session.nextMessageId >= 1
    && (forall id :: id in y.session.responses || id in y.outcomes || id in y.first ==> Issued(y.session, id))
    && (forall id :: Open(y, id) ==> OpenOk(y, id))
  }

  ghost predicate OpenOk(y: System, id: nat) {
    && id in y.session.responses
    && y.session.responses[id].status != Canceled
    && (y.session.responses[id].status == Waiting ==> id !in y.first)
    && (y.session.responses[id].status == HasReply ==> id in y.first && y.session.responses[id].reply == y.first[id])
  }

  ghost predicate OutcomesInv(y: System) {
    forall id :: id in y.outcomes && y.outcomes[id].Replied? ==> id in y.first && y.first[id] == y.outcomes[id].reply
  }

  /** A waiter asleep has nothing to wake up for, and cancel can see it. */
  ghost predicate WaitersInv(y: System) {
    && (forall id :: id in y.sleeping ==> Blocks(y.session, id) && y.session.responses[id].hasWaiter)
    && (forall id :: id in y.waking ==> WakingOk(y.session, id))
    && y.sleeping !! y.waking
  }

  ghost predicate WakingOk(s: Session, id: nat) {
    Issued(s, id) && (id in s.responses ==> s.responses[id].hasWaiter)
  }

  /** While the counter was never decremented in excess, an active session has a timer running. */
  ghost predicate TimerInv(y: System) {
    y.excess == 0 && y.session.error.None? && y.session.connected && y.session.numActive > 0 ==>
      y.session.armed || y.inFlight
  }

  ghost predicate Inv(y: System) {
    CounterInv(y) && IdsInv(y) && OutcomesInv(y) && WaitersInv(y) && TimerInv(y)
  }

  lemma WrapNext(n: int)
    ensures Wrap(Wrap(n) + 1) == Wrap(n + 1) && Wrap(Wrap(n) - 1) == Wrap(n - 1)
  {
  }

  lemma WrapSmall(n: int)
    ensures 0 <= n < WORD ==> Wrap(n) == n
  {
  }

  /** The two agree on all responses but one, as far as the fields other than hasWaiter go. */
  ghost predicate AgreeBut(s: Session, t: Session, id: nat) {
    && (forall k :: k != id ==> (k in s.responses <==> k in t.responses))
    && (forall k :: k != id && k in s.responses ==> s.responses[k] == t.responses[k])
  }

  lemma SetGain(a: set<nat>, b: set<nat>, id: nat)
    requires a - {id} == b - {id}
    ensures |b| - |a| == (if id in b then 1 else 0) - (if id in a then 1 else 0)
  {
    assert |a| == |a - {id}| + (if id in a then 1 else 0) by {
      if id in a { assert a == (a - {id}) + {id}; } else { assert a == a - {id}; }
    }
    assert |b| == |b - {id}| + (if id in b then 1 else 0) by {
      if id in b { assert b == (b - {id}) + {id}; } else { assert b == b - {id}; }
    }
  }

  /** The waiting ids when one entry is set or removed. */
  lemma WaitingChange(s: Session, t: Session, id: nat)
    requires AgreeBut(s, t, id)
    ensures |WaitingIds(t)| - |WaitingIds(s)|
         == (if id in WaitingIds(t) then 1 else 0) - (if id in WaitingIds(s) then 1 else 0)
  {
    assert WaitingIds(s) - {id} == WaitingIds(t) - {id};
    SetGain(WaitingIds(s), WaitingIds(t), id);
  }

  /** The counter after one entry changed, the tallies being kept in step with it. */
  lemma CounterFrame(y: System, z: System, id: nat, d: int)
    requires CounterInv(y) && AgreeBut(y.session, z.session, id) && d in {-1, 0, 1}
    requires z.session.numActive == if d == 0 then y.session.numActive else Wrap(y.session.numActive + d)
    requires d == (if id in WaitingIds(z.session) then 1 else 0) - (if id in WaitingIds(y.session) then 1 else 0)
                + (z.abandoned - y.abandoned) - (z.excess - y.excess)
    requires z.session.error.None? ==> y.session.error.None? && z.abandoned == 0
    requires |WaitingIds(y.session)| + 1 < WORD || id !in WaitingIds(z.session) || id in WaitingIds(y.session)
    ensures CounterInv(z)
  {
    WaitingChange(y.session, z.session, id);
    WrapNext(|WaitingIds(y.session)| + y.abandoned - y.excess);
  }

  lemma CounterSend(y: System)
    requires CounterInv(y) && IdsInv(y) && |WaitingIds(y.session)| + 1 < WORD
    ensures CounterInv(Apply(y, SendStep))
  {
    CounterFrame(y, Apply(y, SendStep), y.session.nextMessageId, 1);
  }

  lemma CounterReply(y: System, id: nat, m: Message)
    requires CounterInv(y) && Accepts(y.session, id)
    ensures CounterInv(ApplyReceive(y, id, m))
  {
    CounterFrame(y, ApplyReceive(y, id, m), id, -1);
  }

  lemma CounterReceive(y: System, id: nat, m: Message)
    requires CounterInv(y)
    ensures CounterInv(ApplyReceive(y, id, m))
  {
    if Accepts(y.session, id) {
      CounterReply(y, id, m);
    } else {
      assert Receive(y.session, id, m).responses == y.session.responses;
    }
  }

  lemma CounterCancel(y: System, id: nat)
    requires CounterInv(y)
    ensures CounterInv(ApplyCancel(y, id))
  {
    CounterFrame(y, ApplyCancel(y, id), id, if id in y.session.responses then -1 else 0);
  }

  lemma CounterUpdate(y: System, id: nat)
    requires CounterInv(y)
    ensures CounterInv(ApplyUpdate(y, id))
  {
    CounterFrame(y, ApplyUpdate(y, id), id, 0);
  }

  /** Steps of waiters, of the timer and of the socket: no RPC that is not ready changes, and the counter stays. */
  ghost predicate Quiet(y: System, z: System, id: nat) {
    && AgreeBut(y.session, z.session, id)
    && y.session.nextMessageId == z.session.nextMessageId && y.session.numActive == z.session.numActive
    && y.outcomes == z.outcomes && y.first == z.first && y.abandoned == z.abandoned && y.excess == z.excess
    && (z.session.error.None? ==> y.session.error.None?)
    && (id in z.session.responses ==> id in y.session.responses && SameReply(y.session, z.session, id))
    && (id in y.session.responses && id !in z.session.responses ==> y.session.responses[id].status == Canceled)
  }

  ghost predicate SameReply(s: Session, t: Session, id: nat)
    requires id in s.responses && id in t.responses
  {
    s.responses[id].status == t.responses[id].status && s.responses[id].reply == t.responses[id].reply
  }

  lemma QuietWakeUp(y: System, id: nat)
    ensures Quiet(y, WakeUp(y, id), id)
  {
  }

  lemma QuietSleep(y: System, id: nat)
    ensures Quiet(y, Sleep(y, id), id)
  {
  }

  lemma QuietTimer(y: System, step: Step)
    requires step.DisconnectStep? || step.TimerFires? || step.TimerStep?
    ensures Quiet(y, Apply(y, step), 0)
  {
  }

  lemma CounterQuiet(y: System, z: System, id: nat)
    requires CounterInv(y) && Quiet(y, z, id)
    ensures CounterInv(z)
  {
    CounterFrame(y, z, id, 0);
  }

  /** Ids and outcomes after a step that touched one RPC only. */
  lemma IdsFrame(y: System, z: System, id: nat)
    requires IdsInv(y) && AgreeBut(y.session, z.session, id)
    requires y.session.nextMessageId <= z.session.nextMessageId <= y.session.nextMessageId + 1
    requires z.session.nextMessageId != y.session.nextMessageId ==> id == y.session.nextMessageId
    requires forall k :: k != id ==> (k in y.outcomes <==> k in z.outcomes) && (k in y.first <==> k in z.first)
    requires forall k :: k != id && k in y.first ==> y.first[k] == z.first[k]
    requires id in z.session.responses || id in z.outcomes || id in z.first ==> Issued(z.session, id)
    requires Open(z, id) ==> OpenOk(z, id)
    ensures IdsInv(z)
  {
    forall k | Open(z, k) ensures OpenOk(z, k) {
      if k != id { assert Open(y, k) && OpenOk(y, k); }
    }
  }

  lemma IdsSend(y: System)
    requires IdsInv(y)
    ensures IdsInv(Apply(y, SendStep))
  {
    IdsFrame(y, Apply(y, SendStep), y.session.nextMessageId);
  }

  lemma IdsReceive(y: System, id: nat, m: Message)
    requires IdsInv(y)
    ensures IdsInv(ApplyReceive(y, id, m))
  {
    if Open(y, id) { assert OpenOk(y, id); }
    IdsFrame(y, ApplyReceive(y, id, m), id);
  }

  lemma IdsCancel(y: System, id: nat)
    requires IdsInv(y) && Open(y, id)
    ensures IdsInv(ApplyCancel(y, id))
  {
    IdsFrame(y, ApplyCancel(y, id), id);
  }

  lemma IdsUpdate(y: System, id: nat)
    requires IdsInv(y) && Open(y, id)
    ensures IdsInv(ApplyUpdate(y, id))
  {
    assert OpenOk(y, id);
    IdsFrame(y, ApplyUpdate(y, id), id);
  }

  lemma IdsQuiet(y: System, z: System, id: nat)
    requires IdsInv(y) && Quiet(y, z, id)
    ensures IdsInv(z)
  {
    if Open(y, id) { assert OpenOk(y, id); }
    IdsFrame(y, z, id);
  }

  lemma OutcomesStep(y: System, step: Step)
    requires IdsInv(y) && OutcomesInv(y) && Enabled(y, step)
    ensures OutcomesInv(Apply(y, step))
  {
    if step.UpdateStep? { assert OpenOk(y, step.id); }
  }

  /** Waiters after a step that touched one RPC only and set no error. */
  lemma WaitersFrame(y: System, z: System, id: nat)
    requires WaitersInv(y) && AgreeBut(y.session, z.session, id)
    requires y.session.error == z.session.error && y.session.nextMessageId <= z.session.nextMessageId
    requires y.sleeping - {id} == z.sleeping - {id} && y.waking - {id} == z.waking - {id}
    requires id in z.sleeping ==> Blocks(z.session, id) && z.session.responses[id].hasWaiter
    requires id in z.waking ==> WakingOk(z.session, id) && id !in z.sleeping
    ensures WaitersInv(z)
  {
    forall k | k in z.sleeping ensures Blocks(z.session, k) && z.session.responses[k].hasWaiter {
      if k != id { assert k in z.sleeping - {id}; assert k in y.sleeping; }
    }
    forall k | k in z.waking ensures WakingOk(z.session, k) && k !in z.sleeping {
      if k != id {
        assert k in z.waking - {id};
        assert k in y.waking && WakingOk(y.session, k);
        assert k !in z.sleeping - {id};
      }
    }
  }

  /** Waiters after a step that changed no response but may have set the error. */
  lemma WaitersError(y: System, t: Session)
    requires IdsInv(y) && WaitersInv(y)
    requires t.responses == y.session.responses && t.nextMessageId == y.session.nextMessageId
    ensures WaitersInv(AfterError(y, t))
    ensures t.error != y.session.error ==> AfterError(y, t).sleeping == {}
  {
    var z := AfterError(y, t);
    forall k | k in z.waking ensures WakingOk(z.session, k) {
      if k in y.waking { assert WakingOk(y.session, k); } else { assert k in y.sleeping; }
    }
  }

  lemma WaitersSend(y: System)
    requires IdsInv(y) && WaitersInv(y)
    ensures WaitersInv(Apply(y, SendStep))
  {
    var id := y.session.nextMessageId;
    assert id !in y.session.responses && !Issued(y.session, id);
    WaitersFrame(y, Apply(y, SendStep), id);
  }

  lemma WaitersReply(y: System, id: nat, m: Message)
    requires IdsInv(y) && WaitersInv(y) && Accepts(y.session, id)
    ensures WaitersInv(ApplyReceive(y, id, m))
  {
    if id in y.waking { assert WakingOk(y.session, id); }
    WaitersFrame(y, ApplyReceive(y, id, m), id);
  }

  lemma WaitersReceive(y: System, id: nat, m: Message)
    requires IdsInv(y) && WaitersInv(y)
    ensures WaitersInv(ApplyReceive(y, id, m))
  {
    if Accepts(y.session, id) {
      WaitersReply(y, id, m);
    } else {
      WaitersError(y, Receive(y.session, id, m));
    }
  }

  lemma WaitersMark(y: System, id: nat)
    requires IdsInv(y) && WaitersInv(y) && id in y.session.responses && y.session.responses[id].hasWaiter
    ensures WaitersInv(ApplyCancel(y, id))
  {
    WaitersFrame(y, ApplyCancel(y, id), id);
  }

  lemma WaitersCancel(y: System, id: nat)
    requires IdsInv(y) && WaitersInv(y)
    ensures WaitersInv(ApplyCancel(y, id))
  {
    if id in y.waking { assert WakingOk(y.session, id); }
    if id in y.session.responses && y.session.responses[id].hasWaiter {
      WaitersMark(y, id);
    } else {
      WaitersFrame(y, ApplyCancel(y, id), id);
    }
  }

  lemma WaitersUpdate(y: System, id: nat)
    requires IdsInv(y) && WaitersInv(y)
    ensures WaitersInv(ApplyUpdate(y, id))
  {
    if id in y.waking { assert WakingOk(y.session, id); }
    WaitersFrame(y, ApplyUpdate(y, id), id);
  }

  lemma WaitersSleep(y: System, id: nat)
    requires WaitersInv(y) && id !in y.sleeping && id !in y.waking
    ensures WaitersInv(Sleep(y, id))
  {
    WaitersFrame(y, Sleep(y, id), id);
  }

  lemma WaitersWakeUp(y: System, id: nat)
    requires WaitersInv(y)
    ensures WaitersInv(WakeUp(y, id))
  {
    WaitersFrame(y, WakeUp(y, id), id);
  }

  // The three invariants that do not speak of the timer.

  ghost predicate Kept(y: System) { CounterInv(y) && IdsInv(y) && WaitersInv(y) }

  lemma KeptSend(y: System)
    requires Kept(y) && Enabled(y, SendStep)
    ensures Kept(Apply(y, SendStep))
  {
    CounterSend(y);
    IdsSend(y);
    WaitersSend(y);
  }

  lemma KeptReceive(y: System, id: nat, m: Message)
    requires Kept(y)
    ensures Kept(ApplyReceive(y, id, m))
  {
    CounterReceive(y, id, m);
    IdsReceive(y, id, m);
    WaitersReceive(y, id, m);
  }

  lemma KeptCancel(y: System, id: nat)
    requires Kept(y) && Open(y, id)
    ensures Kept(ApplyCancel(y, id))
  {
    CounterCancel(y, id);
    IdsCancel(y, id);
    WaitersCancel(y, id);
  }

  lemma KeptUpdate(y: System, id: nat)
    requires Kept(y) && Open(y, id)
    ensures Kept(ApplyUpdate(y, id))
  {
    CounterUpdate(y, id);
    IdsUpdate(y, id);
    WaitersUpdate(y, id);
  }

  lemma KeptSleep(y: System, id: nat)
    requires Kept(y) && id !in y.sleeping && id !in y.waking
    ensures Kept(Sleep(y, id))
  {
    QuietSleep(y, id);
    CounterQuiet(y, Sleep(y, id), id);
    IdsQuiet(y, Sleep(y, id), id);
    WaitersSleep(y, id);
  }

  lemma KeptWakeUp(y: System, id: nat)
    requires Kept(y)
    ensures Kept(WakeUp(y, id))
  {
    QuietWakeUp(y, id);
    CounterQuiet(y, WakeUp(y, id), id);
    IdsQuiet(y, WakeUp(y, id), id);
    WaitersWakeUp(y, id);
  }

  lemma KeptTimer(y: System, step: Step)
    requires Kept(y) && (step.DisconnectStep? || step.TimerFires? || step.TimerStep?)
    ensures Kept(Apply(y, step))
  {
    QuietTimer(y, step);
    CounterQuiet(y, Apply(y, step), 0);
    IdsQuiet(y, Apply(y, step), 0);
    WaitersError(y, match step
      case DisconnectStep => Disconnect(y.session)
      case TimerFires => y.session.(armed := false)
      case _ => HandleTimer(y.session));
  }

  lemma KeptStep(y: System, step: Step)
    requires Kept(y) && Enabled(y, step)
    ensures Kept(Apply(y, step))
  {
    match step
    case SendStep => KeptSend(y);
    case ReceiveStep(id, m) => KeptReceive(y, id, m);
    case CancelStep(id) => KeptCancel(y, id);
    case UpdateStep(id) => KeptUpdate(y, id);
    case WaitStep(id) => KeptSleep(y, id);
    case WakeStep(id) =>
      KeptWakeUp(y, id);
      KeptSleep(WakeUp(y, id), id);
    case _ => KeptTimer(y, step);
  }

  /** Without excess and before any error the counter is the number of waiting RPCs. */
  lemma CounterExact(y: System)
    requires CounterInv(y) && y.session.error.None?
    ensures y.session.numActive == |WaitingIds(y.session)| <==> y.excess % WORD == 0
  {
    var n, e := |WaitingIds(y.session)|, y.excess;
    if e % WORD == 0 {
      WrapMultiple(n, e);
    } else if Wrap(n - e) == n {
      WrapDiffers(n, e);
    }
  }

  lemma WrapMultiple(n: int, e: int)
    requires 0 <= n < WORD && e % WORD == 0
    ensures Wrap(n - e) == n
  {
    assert n - e == n + WORD * (-(e / WORD));
  }

  lemma WrapDiffers(n: int, e: int)
    requires 0 <= n < WORD && Wrap(n - e) == n
    ensures e % WORD == 0
  {
    var q := (n - e) / WORD;
    assert n - e == q * WORD + n;
    assert e == (-q) * WORD;
  }

  lemma TimerCancel(y: System, id: nat)
    requires CounterInv(y) && TimerInv(y)
    ensures TimerInv(ApplyCancel(y, id))
  {
    var s := y.session;
    if y.excess == 0 && s.error.None? && id in WaitingIds(s) {
      CounterExact(y);
      assert |WaitingIds(s)| > 0;
      WrapSmall(s.numActive - 1);
    }
  }

  lemma TimerSend(y: System)
    requires CounterInv(y) && TimerInv(y)
    ensures TimerInv(Apply(y, SendStep))
  {
    WrapSmall(y.session.numActive + 1);
  }

  lemma TimerReceive(y: System, id: nat, m: Message)
    requires TimerInv(y)
    ensures TimerInv(ApplyReceive(y, id, m))
  {
  }

  lemma TimerSleep(y: System, id: nat)
    requires TimerInv(y)
    ensures TimerInv(Sleep(y, id))
  {
  }

  lemma TimerStepKept(y: System, step: Step)
    requires CounterInv(y) && TimerInv(y) && Enabled(y, step)
    ensures TimerInv(Apply(y, step))
  {
    match step
    case SendStep => TimerSend(y);
    case ReceiveStep(id, m) => TimerReceive(y, id, m);
    case CancelStep(id) => TimerCancel(y, id);
    case WaitStep(id) => TimerSleep(y, id);
    case WakeStep(id) => TimerSleep(WakeUp(y, id), id);
    case _ =>
  }

  lemma InvStep(y: System, step: Step)
    requires Inv(y) && Enabled(y, step)
    ensures Inv(Apply(y, step))
  {
    KeptStep(y, step);
    OutcomesStep(y, step);
    TimerStepKept(y, step);
  }

  lemma InvInit(error: Option<Error>)
    ensures Inv(Init(error))
  {
    assert WaitingIds(Fresh(error)) == {};
  }

  lemma {:induction false} InvRun(y: System, steps: seq<Step>, z: System)
    requires Inv(y) && Run(y, steps, z)
    ensures Inv(z)
    decreases |steps|
  {
    if steps != [] {
      InvStep(y, steps[0]);
      InvRun(Apply(y, steps[0]), steps[1..], z);
    }
  }

  lemma ReachableInv(y: System)
    requires Reachable(y)
    ensures Inv(y)
  {
    var error, steps :| Run(Init(error), steps, y);
    InvInit(error);
    InvRun(Init(error), steps, y);
  }

  // ------------------------------------------------------------------ main results

  /** The step decrements the counter for an RPC that is not counted any more. */
  predicate IsExcess(y: System, step: Step) {
    match step
    case CancelStep(id) => id in y.session.responses && y.session.responses[id].status != Waiting
    case ReceiveStep(id, m) => Accepts(y.session, id) && y.session.responses[id].status == Canceled
    case _ => false
  }

  /** How many steps of a run do so. */
  ghost function ExcessIn(y: System, steps: seq<Step>): nat
    decreases |steps|
  {
    if steps == [] then 0
    else (if IsExcess(y, steps[0]) then 1 else 0) + ExcessIn(Apply(y, steps[0]), steps[1..])
  }

  lemma ExcessReceive(y: System, id: nat, m: Message)
    ensures ApplyReceive(y, id, m).excess == y.excess + if IsExcess(y, ReceiveStep(id, m)) then 1 else 0
  {
  }

  lemma ExcessStep(y: System, step: Step)
    ensures Apply(y, step).excess == y.excess + if IsExcess(y, step) then 1 else 0
  {
    match step
    case ReceiveStep(id, m) => ExcessReceive(y, id, m);
    case _ =>
  }

  lemma {:induction false} ExcessIsCounted(y: System, steps: seq<Step>, z: System)
    requires Run(y, steps, z)
    ensures z.excess == y.excess + ExcessIn(y, steps)
    decreases |steps|
  {
    if steps != [] {
      ExcessStep(y, steps[0]);
      ExcessIsCounted(Apply(y, steps[0]), steps[1..], z);
    }
  }

  /** Cancels meet only RPCs that wait for their reply and that no thread waits for. */
  predicate IsCareful(y: System, step: Step) {
    step.CancelStep? && step.id in y.session.responses ==>
      y.session.responses[step.id].status == Waiting && !y.session.responses[step.id].hasWaiter
  }

  ghost predicate CarefulRun(y: System, steps: seq<Step>)
    decreases |steps|
  {
    steps == [] || (IsCareful(y, steps[0]) && CarefulRun(Apply(y, steps[0]), steps[1..]))
  }

  ghost predicate NoneCanceled(y: System) {
    forall id :: id in y.session.responses ==> y.session.responses[id].status != Canceled
  }

  lemma CarefulReceive(y: System, id: nat, m: Message)
    requires NoneCanceled(y)
    ensures NoneCanceled(ApplyReceive(y, id, m))
  {
  }

  lemma CarefulSleep(y: System, id: nat)
    requires NoneCanceled(y)
    ensures NoneCanceled(Sleep(y, id)) && NoneCanceled(WakeUp(y, id))
  {
  }

  lemma CarefulStep(y: System, step: Step)
    requires NoneCanceled(y) && IsCareful(y, step)
    ensures NoneCanceled(Apply(y, step)) && !IsExcess(y, step)
  {
    match step
    case ReceiveStep(id, m) => CarefulReceive(y, id, m);
    case WaitStep(id) => CarefulSleep(y, id);
    case WakeStep(id) =>
      CarefulSleep(y, id);
      CarefulSleep(WakeUp(y, id), id);
    case _ =>
  }

  lemma {:induction false} CarefulRunHasNoExcess(y: System, steps: seq<Step>, z: System)
    requires Run(y, steps, z) && CarefulRun(y, steps) && NoneCanceled(y)
    ensures ExcessIn(y, steps) == 0 && NoneCanceled(z)
    decreases |steps|
  {
    if steps != [] {
      CarefulStep(y, steps[0]);
      CarefulRunHasNoExcess(Apply(y, steps[0]), steps[1..], z);
    }
  }

  /** A state reached from the start by a run with careful cancels. */
  ghost predicate ReachedCarefully(error: Option<Error>, steps: seq<Step>, y: System) {
    Run(Init(error), steps, y) && CarefulRun(Init(error), steps)
  }

  lemma CarefullyExact(error: Option<Error>, steps: seq<Step>, y: System)
    requires ReachedCarefully(error, steps, y)
    ensures Inv(y) && y.excess == 0
    ensures y.session.error.None? ==> y.session.numActive == |WaitingIds(y.session)|
  {
    InvInit(error);
    InvRun(Init(error), steps, y);
    CarefulRunHasNoExcess(Init(error), steps, y);
    ExcessIsCounted(Init(error), steps, y);
    if y.session.error.None? { CounterExact(y); }
  }

  /** Before any error the counter is the number of waiting RPCs exactly when the excess steps wrap it back. */
  lemma ActiveCountIsExactIff(error: Option<Error>, steps: seq<Step>, y: System)
    requires Run(Init(error), steps, y) && y.session.error.None?
    ensures y.session.numActive == |WaitingIds(y.session)| <==> ExcessIn(Init(error), steps) % WORD == 0
  {
    InvInit(error);
    InvRun(Init(error), steps, y);
    ExcessIsCounted(Init(error), steps, y);
    CounterExact(y);
  }

  /** With careful cancels it always is. */
  lemma CarefulCountIsExact(error: Option<Error>, steps: seq<Step>, y: System)
    requires ReachedCarefully(error, steps, y) && y.session.error.None?
    ensures y.session.numActive == |WaitingIds(y.session)|
  {
    CarefullyExact(error, steps, y);
  }

  /** And a connected session with an RPC waiting has its timer running. */
  lemma ActiveSessionIsTimed(error: Option<Error>, steps: seq<Step>, y: System, id: nat)
    requires ReachedCarefully(error, steps, y)
    requires y.session.error.None? && y.session.connected && id in WaitingIds(y.session)
    ensures y.session.armed || y.inFlight
  {
    CarefullyExact(error, steps, y);
    assert |WaitingIds(y.session)| > 0;
  }

  ghost predicate Exact(s: Session) { s.numActive == |WaitingIds(s)| }

  /** The two places where the counter can go wrong, by the status of the RPC they meet. */
  lemma CancelKeepsCountIff(s: Session, id: nat)
    requires Exact(s) && |WaitingIds(s)| < WORD
    ensures Exact(Cancel(s, id)) <==> id !in s.responses || s.responses[id].status == Waiting
  {
    WaitingChange(s, Cancel(s, id), id);
    if id in WaitingIds(s) { assert |WaitingIds(s)| > 0; }
    WrapBefore(s.numActive);
  }

  lemma ReceiveKeepsCountIff(s: Session, id: nat, m: Message)
    requires Exact(s) && |WaitingIds(s)| < WORD && id != PING_MESSAGE_ID
    ensures Exact(Receive(s, id, m)) <==> id !in s.responses || s.responses[id].status != Canceled
  {
    WaitingChange(s, Receive(s, id, m), id);
    if id in WaitingIds(s) { assert |WaitingIds(s)| > 0; }
    WrapBefore(s.numActive);
  }

  lemma WrapBefore(n: int)
    requires 0 <= n < WORD
    ensures Wrap(n - 1) == if n == 0 then WORD - 1 else n - 1
  {
  }

  /** A new RPC's id is not the ping id and was never used before. */
  lemma IdsAreFresh(y: System)
    requires Reachable(y)
    ensures var id := y.session.nextMessageId;
      && id != PING_MESSAGE_ID && id !in y.session.responses && id !in y.outcomes && id !in y.first
      && Apply(y, SendStep).session.nextMessageId > id
  {
    ReachableInv(y);
  }

  /** An RPC that ends with a reply ends with the first message that bore its id after it was sent. */
  lemma RepliesAreFirstReplies(y: System, id: nat)
    requires Reachable(y) && id in y.outcomes && y.outcomes[id].Replied?
    ensures id in y.first && y.outcomes[id].reply == y.first[id]
  {
    ReachableInv(y);
  }

  /**
   What update reports of a handle that is not ready: the first message that came for it, though the session
   may have failed since; else the session's error; else nothing yet.
   */
  lemma UpdateReports(y: System, id: nat)
    requires Reachable(y) && Open(y, id)
    ensures var outcomes := Apply(y, UpdateStep(id)).outcomes;
            if id in y.first then id in outcomes && outcomes[id] == Replied(y.first[id])
            else if y.session.error.Some? then id in outcomes && outcomes[id] == Failed(y.session.error.value)
            else id !in outcomes
  {
    ReachableInv(y);
    assert OpenOk(y, id);
  }

  /** A thread that waits for a handle goes to sleep exactly if update would have nothing to report. */
  lemma WaitSleepsIff(y: System, id: nat)
    requires Reachable(y) && Enabled(y, WaitStep(id))
    ensures id in Apply(y, WaitStep(id)).sleeping <==> id !in y.first && y.session.error.None?
  {
    ReachableInv(y);
    assert OpenOk(y, id);
  }

  /** Nothing that was decided is decided again: errors, outcomes and first messages stay. */
  ghost predicate Later(y: System, z: System) {
    && (y.session.error.Some? ==> z.session.error == y.session.error)
    && (forall id :: id in y.outcomes ==> id in z.outcomes && z.outcomes[id] == y.outcomes[id])
    && (forall id :: id in y.first ==> id in z.first && z.first[id] == y.first[id])
  }

  lemma ReceiveIsLater(y: System, id: nat, m: Message)
    ensures Later(y, ApplyReceive(y, id, m))
  {
  }

  lemma DecisionsStay(y: System, step: Step)
    requires Enabled(y, step)
    ensures Later(y, Apply(y, step))
  {
    match step
    case ReceiveStep(id, m) => ReceiveIsLater(y, id, m);
    case _ =>
  }

  lemma {:induction false} DecisionsArePermanent(y: System, steps: seq<Step>, z: System)
    requires Run(y, steps, z)
    ensures Later(y, z)
    decreases |steps|
  {
    if steps != [] {
      DecisionsStay(y, steps[0]);
      DecisionsArePermanent(Apply(y, steps[0]), steps[1..], z);
    }
  }

  /** No wake-up is lost: a waiter asleep is one whose RPC still waits in a session without error. */
  lemma SleepersHaveNothingToDo(y: System, id: nat)
    requires Reachable(y) && id in y.sleeping
    ensures id in y.session.responses && y.session.responses[id].status == Waiting && y.session.error.None?
  {
    ReachableInv(y);
  }

  /** A handle that is not ready always finds its entry, never canceled: what update asserts holds. */
  lemma OpenHandlesHaveEntries(y: System, id: nat)
    requires Reachable(y) && Open(y, id)
    ensures id in y.session.responses && y.session.responses[id].status != Canceled
  {
    ReachableInv(y);
    assert OpenOk(y, id);
  }

  lemma RunAppend(x: System, a: seq<Step>, y: System, b: seq<Step>, z: System)
    requires Run(x, a, y) && Run(y, b, z)
    ensures Run(x, a + b, z)
    decreases |a|
  {
    if a == [] {
      assert a + b == b;
    } else {
      RunAppend(Apply(x, a[0]), a[1..], y, b, z);
      assert (a + b)[0] == a[0] && (a + b)[1..] == a[1..] + b;
    }
  }

  /** One firing of the timer in a silent session: a ping, or else the end of the session. */
  lemma SilentRound(y: System) returns (steps: seq<Step>, z: System)
    requires Inv(y) && y.excess == 0 && y.session.error.None? && y.session.connected && y.session.numActive > 0
    ensures Run(y, steps, z) && forall i :: 0 <= i < |steps| ==> steps[i].TimerFires? || steps[i].TimerStep?
    ensures if y.session.activePing then z.session.error == Some(TimedOut) && z.sleeping == {}
            else z.session == y.session.(activePing := true, armed := true) && z.excess == 0
  {
    if y.inFlight {
      steps, z := [TimerStep], Apply(y, TimerStep);
      OneStep(y, TimerStep);
    } else {
      var x := Apply(y, TimerFires);
      steps, z := [TimerFires] + [TimerStep], Apply(x, TimerStep);
      OneStep(y, TimerFires);
      OneStep(x, TimerStep);
      RunAppend(y, [TimerFires], x, [TimerStep], z);
    }
  }

  lemma OneStep(y: System, step: Step)
    requires Enabled(y, step)
    ensures Run(y, [step], Apply(y, step))
  {
    assert [step][1..] == [];
    assert Run(Apply(y, step), [], Apply(y, step));
  }

  /** If the server stays silent, the timer alone ends the session and wakes every waiter. */
  lemma SilentServerTimesOut(error: Option<Error>, before: seq<Step>, y: System, id: nat)
    returns (steps: seq<Step>, z: System)
    requires ReachedCarefully(error, before, y)
    requires y.session.error.None? && y.session.connected && id in WaitingIds(y.session)
    ensures Run(y, steps, z) && forall i :: 0 <= i < |steps| ==> steps[i].TimerFires? || steps[i].TimerStep?
    ensures z.session.error == Some(TimedOut) && z.sleeping == {}
  {
    CarefullyExact(error, before, y);
    assert |WaitingIds(y.session)| > 0;
    steps, z := SilentRound(y);
    if !y.session.activePing {
      var pinged := z;
      InvRun(y, steps, pinged);
      var more;
      more, z := SilentRound(pinged);
      RunAppend(y, steps, pinged, more, z);
      steps := steps + more;
    }
  }

  /** What the timer's handler does, by whether RPCs wait: nothing, a ping, or the end of the session. */
  lemma TimerActs(error: Option<Error>, steps: seq<Step>, y: System)
    requires ReachedCarefully(error, steps, y)
    ensures var s, t := y.session, Apply(y, TimerStep).session;
            if s.error.Some? || !s.connected || WaitingIds(s) == {} then t == s
            else if !s.activePing then t == s.(activePing := true, armed := true)
            else t == s.(error := Some(TimedOut))
  {
    if y.session.error.None? { CarefullyExact(error, steps, y); }
  }

  /** A reply sets the timer anew while other RPCs wait, and stops it when none does. */
  lemma ReplySetsTheTimer(error: Option<Error>, steps: seq<Step>, y: System, id: nat, m: Message)
    requires ReachedCarefully(error, steps, y) && y.session.error.None? && id in WaitingIds(y.session)
    ensures Apply(y, ReceiveStep(id, m)).session.armed <==> WaitingIds(y.session) != {id}
  {
    CarefullyExact(error, steps, y);
    ReachedIds(error, steps, y);
    OnlyMember(WaitingIds(y.session), id);
    ReplyArms(y.session, id, m);
  }

  lemma OnlyMember(ids: set<nat>, id: nat)
    requires id in ids
    ensures |ids| == 1 <==> ids == {id}
  {
    assert |ids - {id}| == |ids| - 1;
    if ids - {id} == {} { assert ids == {id}; }
  }

  lemma ReplyArms(s: Session, id: nat, m: Message)
    requires Accepts(s, id) && 1 <= s.numActive < WORD
    ensures Receive(s, id, m).armed <==> s.numActive != 1
  {
    WrapSmall(s.numActive - 1);
  }

  lemma ReachedIds(error: Option<Error>, steps: seq<Step>, y: System)
    requires ReachedCarefully(error, steps, y)
    ensures PING_MESSAGE_ID !in y.session.responses && |WaitingIds(y.session)| < WORD
  {
    InvInit(error);
    InvRun(Init(error), steps, y);
  }

  // ------------------------------------------------------- why a session times out

  predicate IsPing(y: System, step: Step) {
    step.TimerStep? && !y.session.activePing && HandleTimer(y.session).activePing
  }

  predicate IsPingReply(step: Step) { step.ReceiveStep? && step.id == PING_MESSAGE_ID }

  /** At the end of the run a ping is out to which no reply has come, if one was at its beginning or later. */
  ghost predicate Unanswered(y: System, steps: seq<Step>, was: bool)
    decreases |steps|
  {
    if steps == [] then was
    else
      Unanswered(Apply(y, steps[0]), steps[1..],
                 if IsPing(y, steps[0]) then true else if IsPingReply(steps[0]) then false else was)
  }

  ghost predicate PingInv(y: System, unanswered: bool) {
    y.excess == 0 && y.session.error.None? && y.session.numActive > 0 && y.session.activePing ==> unanswered
  }

  lemma PingCancel(y: System, id: nat, unanswered: bool)
    requires CounterInv(y) && PingInv(y, unanswered)
    ensures PingInv(ApplyCancel(y, id), unanswered)
  {
    var s := y.session;
    if y.excess == 0 && s.error.None? && id in WaitingIds(s) {
      CounterExact(y);
      assert |WaitingIds(s)| > 0;
    }
  }

  lemma PingSend(y: System, unanswered: bool)
    requires CounterInv(y) && PingInv(y, unanswered)
    ensures PingInv(Apply(y, SendStep), unanswered)
  {
  }

  lemma PingReceive(y: System, id: nat, m: Message, unanswered: bool)
    requires CounterInv(y) && PingInv(y, unanswered)
    ensures PingInv(ApplyReceive(y, id, m), unanswered && id != PING_MESSAGE_ID)
  {
    var s := y.session;
    if Accepts(s, id) && y.excess == 0 && s.error.None? && s.responses[id].status == Waiting {
      CounterExact(y);
      assert id in WaitingIds(s) && |WaitingIds(s)| > 0;
    }
  }

  lemma PingSleep(y: System, id: nat, unanswered: bool)
    requires PingInv(y, unanswered)
    ensures PingInv(Sleep(y, id), unanswered) && PingInv(WakeUp(y, id), unanswered)
  {
  }

  lemma PingTimer(y: System, unanswered: bool)
    requires PingInv(y, unanswered)
    ensures PingInv(Apply(y, TimerStep), IsPing(y, TimerStep) || unanswered)
  {
  }

  lemma PingStep(y: System, step: Step, unanswered: bool)
    requires CounterInv(y) && PingInv(y, unanswered) && Enabled(y, step)
    ensures PingInv(Apply(y, step),
                    if IsPing(y, step) then true else if IsPingReply(step) then false else unanswered)
  {
    match step
    case SendStep => PingSend(y, unanswered);
    case ReceiveStep(id, m) => PingReceive(y, id, m, unanswered);
    case CancelStep(id) => PingCancel(y, id, unanswered);
    case WaitStep(id) => PingSleep(y, id, unanswered);
    case WakeStep(id) =>
      PingSleep(y, id, unanswered);
      PingSleep(WakeUp(y, id), id, unanswered);
    case TimerStep => PingTimer(y, unanswered);
    case _ =>
  }

  lemma {:induction false} PingRun(y: System, steps: seq<Step>, z: System, was: bool)
    requires Inv(y) && PingInv(y, was) && Run(y, steps, z)
    ensures PingInv(z, Unanswered(y, steps, was))
    decreases |steps|
  {
    if steps != [] {
      var now := if IsPing(y, steps[0]) then true else if IsPingReply(steps[0]) then false else was;
      InvStep(y, steps[0]);
      PingStep(y, steps[0], was);
      PingRun(Apply(y, steps[0]), steps[1..], z, now);
    }
  }

  /** The step ends the session because the server did not answer. */
  predicate TimesOut(y: System, step: Step) {
    y.session.error.None? && Apply(y, step).session.error == Some(TimedOut)
  }

  lemma ReceiveSetsNoError(y: System, id: nat, m: Message)
    ensures ApplyReceive(y, id, m).session.error == y.session.error
  {
  }

  lemma HandlesSetNoError(y: System, id: nat)
    ensures ApplyCancel(y, id).session.error == ApplyUpdate(y, id).session.error == y.session.error
  {
  }

  lemma WaitersSetNoError(y: System, id: nat)
    ensures Sleep(y, id).session.error == WakeUp(y, id).session.error == y.session.error
  {
  }

  /** Only the timer's handler sets this error, and only in a session that has a ping out. */
  lemma TimedOutStep(y: System, step: Step)
    requires TimesOut(y, step)
    ensures step.TimerStep? && y.session.numActive != 0 && y.session.activePing
  {
    match step
    case ReceiveStep(id, m) => ReceiveSetsNoError(y, id, m);
    case CancelStep(id) => HandlesSetNoError(y, id);
    case UpdateStep(id) => HandlesSetNoError(y, id);
    case WaitStep(id) => WaitersSetNoError(y, id);
    case WakeStep(id) =>
      WaitersSetNoError(y, id);
      WaitersSetNoError(WakeUp(y, id), id);
    case _ =>
  }

  /** With careful cancels a session times out only by its timer, while a ping is out that no reply has come to. */
  lemma TimesOutOnlyUnanswered(error: Option<Error>, steps: seq<Step>, y: System, step: Step)
    requires ReachedCarefully(error, steps, y)
    ensures TimesOut(y, step) ==> step.TimerStep? && Unanswered(Init(error), steps, false)
  {
    CarefullyExact(error, steps, y);
    InvInit(error);
    PingRun(Init(error), steps, y, false);
    if TimesOut(y, step) { TimedOutStep(y, step); }
  }

  // ---------------------------------------------------------- entries left behind

  /** An entry nobody will ever erase: its RPC has ended and no thread is waiting for it. */
  predicate Stray(y: System, id: nat) {
    id in y.session.responses && id in y.outcomes && id !in y.sleeping && id !in y.waking
  }

  /** A reply came for an RPC that was canceled while a thread waited for it. */
  predicate IsLateReply(y: System, step: Step, id: nat) {
    && step.ReceiveStep? && step.id == id
    && Accepts(y.session, id) && y.session.responses[id].status == Canceled
  }

  ghost predicate LateReply(y: System, steps: seq<Step>, id: nat, was: bool)
    decreases |steps|
  {
    if steps == [] then was
    else LateReply(Apply(y, steps[0]), steps[1..], id, was || IsLateReply(y, steps[0], id))
  }

  /** What can be left of an RPC that has ended, and which responses have waiters. */
  ghost predicate ClosedOk(y: System, id: nat, late: bool) {
    && (id in y.session.responses && y.session.responses[id].hasWaiter ==> id in y.sleeping || id in y.waking)
    && (late ==> id in y.session.responses && id in y.outcomes)
    && (id in y.session.responses && id in y.outcomes ==>
          if late then y.session.responses[id].status == HasReply
          else y.session.responses[id].status == Canceled && id in y.waking)
  }

  lemma ClosedSend(y: System, id: nat, late: bool)
    requires IdsInv(y) && ClosedOk(y, id, late)
    ensures ClosedOk(Apply(y, SendStep), id, late)
  {
  }

  lemma ClosedOther(y: System, k: nat, m: Message, id: nat, late: bool)
    requires ClosedOk(y, id, late) && (k != id || !Accepts(y.session, id))
    ensures ClosedOk(ApplyReceive(y, k, m), id, late)
  {
  }

  lemma ClosedReply(y: System, id: nat, m: Message, late: bool)
    requires IdsInv(y) && ClosedOk(y, id, late) && Accepts(y.session, id)
    ensures ClosedOk(ApplyReceive(y, id, m), id, late || IsLateReply(y, ReceiveStep(id, m), id))
  {
    if Open(y, id) { assert OpenOk(y, id); }
  }

  lemma ClosedReceive(y: System, k: nat, m: Message, id: nat, late: bool)
    requires IdsInv(y) && WaitersInv(y) && ClosedOk(y, id, late)
    ensures ClosedOk(ApplyReceive(y, k, m), id, late || IsLateReply(y, ReceiveStep(k, m), id))
  {
    if k == id && Accepts(y.session, id) {
      ClosedReply(y, id, m, late);
    } else {
      ClosedOther(y, k, m, id, late);
    }
  }

  lemma ClosedCancel(y: System, k: nat, id: nat, late: bool)
    requires IdsInv(y) && WaitersInv(y) && Open(y, k) && ClosedOk(y, id, late)
    ensures ClosedOk(ApplyCancel(y, k), id, late)
  {
    if k == id && id in y.waking { assert WakingOk(y.session, id); }
  }

  lemma ClosedUpdate(y: System, k: nat, id: nat, late: bool)
    requires IdsInv(y) && WaitersInv(y) && Open(y, k) && ClosedOk(y, id, late)
    ensures ClosedOk(ApplyUpdate(y, k), id, late)
  {
  }

  lemma ClosedSleep(y: System, k: nat, id: nat, late: bool)
    requires ClosedOk(y, id, late) || (k == id && WokenOk(y, id, late))
    ensures ClosedOk(Sleep(y, k), id, late)
  {
  }

  /** The same while the RPC's waiter is awake. */
  ghost predicate WokenOk(y: System, id: nat, late: bool) {
    && (id in y.session.responses ==> !y.session.responses[id].hasWaiter)
    && (late ==> id in y.session.responses && id in y.outcomes)
    && (id in y.session.responses && id in y.outcomes ==>
          y.session.responses[id].status == if late then HasReply else Canceled)
  }

  lemma ClosedWakeUp(y: System, k: nat, id: nat, late: bool)
    requires ClosedOk(y, id, late)
    ensures if k == id then WokenOk(WakeUp(y, k), id, late) else ClosedOk(WakeUp(y, k), id, late)
  {
  }

  lemma ClosedError(y: System, t: Session, id: nat, late: bool)
    requires WaitersInv(y) && ClosedOk(y, id, late) && t.responses == y.session.responses
    ensures ClosedOk(AfterError(y, t), id, late)
  {
  }

  lemma ClosedStep(y: System, step: Step, id: nat, late: bool)
    requires Kept(y) && Enabled(y, step) && ClosedOk(y, id, late)
    ensures ClosedOk(Apply(y, step), id, late || IsLateReply(y, step, id))
  {
    match step
    case SendStep => ClosedSend(y, id, late);
    case ReceiveStep(k, m) => ClosedReceive(y, k, m, id, late);
    case CancelStep(k) => ClosedCancel(y, k, id, late);
    case UpdateStep(k) => ClosedUpdate(y, k, id, late);
    case WaitStep(k) => ClosedSleep(y, k, id, late);
    case WakeStep(k) =>
      ClosedWakeUp(y, k, id, late);
      ClosedSleep(WakeUp(y, k), k, id, late);
    case DisconnectStep => ClosedError(y, Disconnect(y.session), id, late);
    case TimerFires =>
    case TimerStep => ClosedError(y, HandleTimer(y.session), id, late);
  }

  lemma {:induction false} ClosedRun(y: System, steps: seq<Step>, z: System, id: nat, late: bool)
    requires Inv(y) && Run(y, steps, z) && ClosedOk(y, id, late)
    ensures ClosedOk(z, id, LateReply(y, steps, id, late)) && Inv(z)
    decreases |steps|
  {
    if steps != [] {
      InvStep(y, steps[0]);
      ClosedStep(y, steps[0], id, late);
      ClosedRun(Apply(y, steps[0]), steps[1..], z, id, late || IsLateReply(y, steps[0], id));
    }
  }

  /** An entry is left behind exactly when a reply came for it after its RPC was canceled and its waiter has left. */
  lemma LeftBehindIff(error: Option<Error>, steps: seq<Step>, y: System, id: nat)
    requires Run(Init(error), steps, y)
    ensures Stray(y, id) <==> LateReply(Init(error), steps, id, false) && id !in y.waking
  {
    InvInit(error);
    ClosedRun(Init(error), steps, y, id, false);
  }

  lemma StrayReceive(y: System, k: nat, m: Message, id: nat)
    requires Stray(y, id)
    ensures Stray(ApplyReceive(y, k, m), id)
  {
  }

  lemma StrayHandle(y: System, k: nat, id: nat)
    requires Stray(y, id) && k != id
    ensures Stray(ApplyCancel(y, k), id) && Stray(ApplyUpdate(y, k), id)
    ensures Stray(Sleep(y, k), id) && Stray(WakeUp(y, k), id)
  {
  }

  lemma StrayError(y: System, t: Session, id: nat)
    requires Stray(y, id) && t.responses == y.session.responses
    ensures Stray(AfterError(y, t), id)
  {
  }

  lemma StrayStep(y: System, step: Step, id: nat)
    requires Enabled(y, step) && Stray(y, id)
    ensures Stray(Apply(y, step), id)
  {
    match step
    case SendStep =>
    case ReceiveStep(k, m) => StrayReceive(y, k, m, id);
    case CancelStep(k) => StrayHandle(y, k, id);
    case UpdateStep(k) => StrayHandle(y, k, id);
    case WaitStep(k) => StrayHandle(y, k, id);
    case WakeStep(k) =>
      StrayHandle(y, k, id);
      StrayHandle(WakeUp(y, k), k, id);
    case DisconnectStep => StrayError(y, Disconnect(y.session), id);
    case TimerFires =>
    case TimerStep => StrayError(y, HandleTimer(y.session), id);
  }

  /** Such an entry stays for good. */
  lemma {:induction false} StrayIsForGood(y: System, steps: seq<Step>, z: System, id: nat)
    requires Run(y, steps, z) && Stray(y, id)
    ensures Stray(z, id)
    decreases |steps|
  {
    if steps != [] {
      StrayStep(y, steps[0], id);
      StrayIsForGood(Apply(y, steps[0]), steps[1..], z, id);
    }
  }

  lemma RunSnoc(x: System, a: seq<Step>, y: System, step: Step)
    requires Run(x, a, y) && Enabled(y, step)
    ensures Run(x, a + [step], Apply(y, step))
  {
    OneStep(y, step);
    RunAppend(x, a, y, [step], Apply(y, step));
  }

  /** A request and a thread that waits for it. */
  lemma SendAndWait() returns (y: System)
    ensures Run(Init(None), [SendStep] + [WaitStep(1)], y)
    ensures y.session.responses == map[1 := Response(Waiting, [], true)] && y.session.error.None?
    ensures y.session.connected && y.session.nextMessageId == 2
    ensures y.sleeping == {1} && y.waking == {} && y.outcomes == map[]
  {
    var a := Apply(Init(None), SendStep);
    assert WaitingIds(Fresh(None)) == {};
    OneStep(Init(None), SendStep);
    assert a.session.responses == map[1 := Response(Waiting, [], false)];
    y := Apply(a, WaitStep(1));
    RunSnoc(Init(None), [SendStep], a, WaitStep(1));
  }

  /** The first RPC's only trace is its entry, with this status and a waiter just notified. */
  predicate EndedAs(y: System, status: Status) {
    && y.session.connected && 1 in y.session.responses && y.session.responses[1].status == status
    && y.sleeping == {} && y.waking == {1} && 1 in y.outcomes
  }

  lemma CancelWaited(y: System)
    requires y.session.connected && 1 in y.session.responses && y.session.responses[1].hasWaiter
    requires y.sleeping == {1} && y.waking == {}
    ensures EndedAs(ApplyCancel(y, 1), Canceled)
  {
  }

  lemma ReplyToCanceled(y: System, m: Message)
    requires EndedAs(y, Canceled)
    ensures EndedAs(ApplyReceive(y, 1, m), HasReply)
  {
  }

  lemma WakeToReply(y: System)
    requires EndedAs(y, HasReply)
    ensures Stray(Sleep(WakeUp(y, 1), 1), 1)
  {
  }

  /** A request whose waiter is overtaken by a cancel and then by the reply leaves its entry behind. */
  lemma StrayIsReachable(m: Message) returns (steps: seq<Step>, y: System)
    ensures Run(Init(None), steps, y) && Stray(y, 1)
  {
    var b := SendAndWait();
    steps := [SendStep] + [WaitStep(1)];
    CancelWaited(b);
    var c := Apply(b, CancelStep(1));
    RunSnoc(Init(None), steps, b, CancelStep(1));
    steps := steps + [CancelStep(1)];
    ReplyToCanceled(c, m);
    var d := Apply(c, ReceiveStep(1, m));
    RunSnoc(Init(None), steps, c, ReceiveStep(1, m));
    steps := steps + [ReceiveStep(1, m)];
    WakeToReply(d);
    y := Apply(d, WakeStep(1));
    RunSnoc(Init(None), steps, d, WakeStep(1));
    steps := steps + [WakeStep(1)];
  }

  // ------------------------------------------------ entries deleted under a waiter

  /** The RPC has a thread in wait(). */
  predicate HasThread(y: System, id: nat) { id in y.sleeping || id in y.waking }

  /** The comment on Response::hasWaiter: a Response with a waiter may not be deleted. */
  ghost predicate WaitersHaveEntries(y: System) {
    forall id :: HasThread(y, id) ==> id in y.session.responses
  }

  /** update finds the RPC ready, and deletes its Response while another thread is in wait() for it. */
  predicate DeletesWaited(y: System, step: Step) {
    step.UpdateStep? && Ready(y.session, step.id).Some? && HasThread(y, step.id)
  }

  /** Every waiter of z has its entry there, if it had one in y. */
  ghost predicate EntryKept(y: System, z: System, id: nat) {
    HasThread(z, id) && (HasThread(y, id) ==> id in y.session.responses) ==> id in z.session.responses
  }

  lemma EntryReceive(y: System, k: nat, m: Message, id: nat)
    ensures EntryKept(y, ApplyReceive(y, k, m), id)
  {
  }

  lemma EntryCancel(y: System, k: nat, id: nat)
    requires HasThread(y, k) && k in y.session.responses ==> y.session.responses[k].hasWaiter
    ensures EntryKept(y, ApplyCancel(y, k), id)
  {
  }

  lemma EntryUpdate(y: System, k: nat, id: nat)
    requires !DeletesWaited(y, UpdateStep(k))
    ensures EntryKept(y, ApplyUpdate(y, k), id)
  {
  }

  lemma EntrySleep(y: System, k: nat, id: nat)
    requires !HasThread(y, k)
    ensures EntryKept(y, Sleep(y, k), id)
  {
  }

  lemma EntryWakeUp(y: System, k: nat, id: nat)
    ensures EntryKept(y, WakeUp(y, k), id) && !HasThread(WakeUp(y, k), k)
  {
  }

  lemma EntryError(y: System, t: Session, id: nat)
    requires t.responses == y.session.responses
    ensures EntryKept(y, AfterError(y, t), id)
  {
  }

  lemma EntriesKept(y: System, step: Step, id: nat)
    requires WaitersInv(y) && Enabled(y, step) && WaitersHaveEntries(y) && !DeletesWaited(y, step)
    requires HasThread(Apply(y, step), id)
    ensures id in Apply(y, step).session.responses
  {
    match step
    case SendStep => assert HasThread(y, id);
    case ReceiveStep(k, m) => EntryReceive(y, k, m, id);
    case CancelStep(k) =>
      if k in y.waking { assert WakingOk(y.session, k); }
      EntryCancel(y, k, id);
    case UpdateStep(k) => EntryUpdate(y, k, id);
    case WaitStep(k) => EntrySleep(y, k, id);
    case WakeStep(k) =>
      EntryWakeUp(y, k, id);
      EntrySleep(WakeUp(y, k), k, id);
    case DisconnectStep => EntryError(y, Disconnect(y.session), id);
    case TimerFires => assert HasThread(y, id);
    case TimerStep => EntryError(y, HandleTimer(y.session), id);
  }

  /** A thread in wait() leaves it only by running: no step of another thread takes it out of both sets. */
  lemma ThreadStays(y: System, step: Step, id: nat)
    requires HasThread(y, id) && step != WakeStep(id)
    ensures HasThread(Apply(y, step), id)
  {
    match step
    case ReceiveStep(k, m) => ReceiveKeepsThread(y, k, m, id);
    case CancelStep(k) => HandleKeepsThread(y, k, id);
    case UpdateStep(k) => HandleKeepsThread(y, k, id);
    case _ =>
  }

  lemma ReceiveKeepsThread(y: System, k: nat, m: Message, id: nat)
    requires HasThread(y, id)
    ensures HasThread(ApplyReceive(y, k, m), id)
  {
  }

  lemma HandleKeepsThread(y: System, k: nat, id: nat)
    requires HasThread(y, id)
    ensures HasThread(ApplyCancel(y, k), id) && HasThread(ApplyUpdate(y, k), id)
  {
  }

  /** One step breaks the comment's promise: an update that overtakes the waiter. */
  lemma EntriesKeptIff(y: System, step: Step)
    requires Inv(y) && Enabled(y, step) && WaitersHaveEntries(y)
    ensures WaitersHaveEntries(Apply(y, step)) <==> !DeletesWaited(y, step)
  {
    if DeletesWaited(y, step) {
      assert HasThread(Apply(y, step), step.id);
    } else {
      forall id | HasThread(Apply(y, step), id) ensures id in Apply(y, step).session.responses {
        EntriesKept(y, step, id);
      }
    }
  }

  /** Some step of the run deletes a Response with a waiter. */
  ghost predicate DeletesDuring(y: System, steps: seq<Step>)
    decreases |steps|
  {
    steps != [] && (DeletesWaited(y, steps[0]) || DeletesDuring(Apply(y, steps[0]), steps[1..]))
  }

  /** In every state of the run, all waiters have their entries. */
  ghost predicate AlwaysHaveEntries(y: System, steps: seq<Step>)
    decreases |steps|
  {
    WaitersHaveEntries(y) && (steps == [] || AlwaysHaveEntries(Apply(y, steps[0]), steps[1..]))
  }

  /** Over whole runs: waiters always find their Response exactly if no update overtakes one. */
  lemma {:induction false} WaitersHaveEntriesIff(y: System, steps: seq<Step>, z: System)
    requires Inv(y) && WaitersHaveEntries(y) && Run(y, steps, z)
    ensures AlwaysHaveEntries(y, steps) <==> !DeletesDuring(y, steps)
    decreases |steps|
  {
    if steps != [] {
      InvStep(y, steps[0]);
      EntriesKeptIff(y, steps[0]);
      if !DeletesWaited(y, steps[0]) { WaitersHaveEntriesIff(Apply(y, steps[0]), steps[1..], z); }
    }
  }

  /** It happens: the reply comes, and another thread polls before the waiter runs. */
  lemma WaitedIsDeleted(m: Message) returns (steps: seq<Step>, y: System)
    ensures Run(Init(None), steps, y) && DeletesWaited(y, UpdateStep(1)) && Enabled(y, UpdateStep(1))
  {
    var b := SendAndWait();
    steps := [SendStep] + [WaitStep(1)];
    y := Apply(b, ReceiveStep(1, m));
    RunSnoc(Init(None), steps, b, ReceiveStep(1, m));
    steps := steps + [ReceiveStep(1, m)];
  }

  /** A cancel after the reply came makes the counter wrap, and the next RPC waits with no timer running. */
  lemma CancelAfterReplyLosesTheTimer(m: Message) returns (steps: seq<Step>, y: System)
    ensures Run(Init(None), steps, y)
    ensures y.session.connected && y.session.error.None? && WaitingIds(y.session) == {2}
    ensures y.session.numActive == 0 && !y.session.armed && !y.inFlight
  {
    var a := Apply(Init(None), SendStep);
    var b := Apply(a, ReceiveStep(1, m));
    var c := Apply(b, CancelStep(1));
    y := Apply(c, SendStep);
    assert WaitingIds(Fresh(None)) == {};
    OneStep(Init(None), SendStep);
    assert b.session.responses[1].status == HasReply && b.session.numActive == 0 && !b.session.armed;
    OneStep(a, ReceiveStep(1, m));
    RunAppend(Init(None), [SendStep], a, [ReceiveStep(1, m)], b);
    assert c.session.responses == map[] && c.session.numActive == WORD - 1;
    OneStep(b, CancelStep(1));
    RunAppend(Init(None), [SendStep] + [ReceiveStep(1, m)], b, [CancelStep(1)], c);
    assert WaitingIds(c.session) == {};
    OneStep(c, SendStep);
    steps := [SendStep] + [ReceiveStep(1, m)] + [CancelStep(1)] + [SendStep];
    RunAppend(Init(None), [SendStep] + [ReceiveStep(1, m)] + [CancelStep(1)], c, [SendStep], y);
  }
}
