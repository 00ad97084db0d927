/**
 Exactly-once RPCs: the client-side ExactlyOnceRPCHelper shared by concurrent
 callers, the server's session table, and a network that may delay, reorder and
 duplicate requests, as the retries of LeaderRPC::call do.

 The replicated log is taken as given: a committed request is applied to one
 state machine.  The tree is modelled by the sequence of operations applied to
 it, and the response to an operation by its position in that sequence, of which
 every reply of a deterministic tree is a function.
 */
module ExactlyOnce {
  import opened NatSets

  type Command = string

  datatype Option<T> = None | Some(value: T)

  /** The clock reading that an entry may carry. */
  type Clock = Option<nat>

  datatype RpcInfo = RpcInfo(clientId: nat, rpcNumber: nat, firstOutstanding: nat)

  datatype Request = Request(info: RpcInfo, cmd: Command) {
    predicate Is(c: nat, n: nat) { info.clientId == c && info.rpcNumber == n }
  }

  /** Position, in the sequence of applied operations, of the one that produced the response. */
  type Response = nat

  // ------------------------------------------------------------------- the server

  datatype Session = Session(lastModified: nat, firstOutstanding: nat, responses: map<nat, Response>)

  const NewSession := Session(0, 0, map[])

  datatype Server = Server(sessions: map<nat, Session>, applied: seq<Request>)

  function ExpireResponses(s: Session, first: nat): Session {
    if s.firstOutstanding >= first then s
    else Session(s.lastModified, first, map n | n in s.responses && first <= n :: s.responses[n])
  }

  /** StateMachine::apply on a tree operation, before its treatment of time. */
  function ApplyTree(sv: Server, r: Request): Server {
    var c, n := r.info.clientId, r.info.rpcNumber;
    if c !in sv.sessions then sv
    else
      var s := ExpireResponses(sv.sessions[c], r.info.firstOutstanding);
      if n < s.firstOutstanding || n in s.responses then
        sv.(sessions := sv.sessions[c := s])
      else
        Server(sv.sessions[c := s.(responses := s.responses[n := |sv.applied|])], sv.applied + [r])
  }

  function OpenSession(sv: Server, entryId: nat): Server {
    if entryId in sv.sessions then sv else sv.(sessions := sv.sessions[entryId := NewSession])
  }

  /** If an entry carries a clock reading, its session is refreshed and the stale ones are dropped. */
  function Touch(sv: Server, c: nat, clock: Clock, timeout: nat): Server {
    match clock
    case None => sv
    case Some(now) => sv.(sessions := ExpireSessions(Refresh(sv.sessions, c, now), now, timeout))
  }

  function Refresh(sessions: map<nat, Session>, c: nat, now: nat): map<nat, Session> {
    if c in sessions then sessions[c := sessions[c].(lastModified := now)] else sessions
  }

  function ExpireSessions(sessions: map<nat, Session>, now: nat, timeout: nat): map<nat, Session> {
    map c | c in sessions && sessions[c].lastModified + timeout >= now :: sessions[c]
  }

  /** Server::StateMachine, with its loops over the session table. */
  class StateMachine {
    var sessions: map<nat, Session>
    var applied: seq<Request>
    const timeout: nat

    ghost function View(): Server
      reads this
    {
      Server(sessions, applied)
    }

    constructor (timeout: nat)
      ensures View() == Server(map[], []) && this.timeout == timeout
    {
      sessions, applied, this.timeout := map[], [], timeout;
    }

    method ExpireResponsesOf(s: Session, first: nat) returns (s': Session)
      ensures s' == ExpireResponses(s, first)
    {
      if s.firstOutstanding >= first { return s; }
      var kept, todo := s.responses, s.responses.Keys;
      while todo != {}
        invariant todo <= s.responses.Keys
        invariant forall n :: n in kept <==> n in s.responses && (n in todo || first <= n)
        invariant forall n :: n in kept ==> kept[n] == s.responses[n]
      {
        var n :| n in todo;
        if n < first {
          kept := kept - {n};
        }
        todo := todo - {n};
      }
      s' := Session(s.lastModified, first, kept);
      assert kept == ExpireResponses(s, first).responses;
    }

    method DropStaleSessions(now: nat)
      modifies this`sessions
      ensures sessions == ExpireSessions(old(sessions), now, timeout)
    {
      var todo := sessions.Keys;
      while todo != {}
        invariant todo <= old(sessions).Keys
        invariant forall c :: c in sessions <==>
                    c in old(sessions) && (c in todo || old(sessions)[c].lastModified + timeout >= now)
        invariant forall c :: c in sessions ==> sessions[c] == old(sessions)[c]
      {
        var c :| c in todo;
        var expireTime := sessions[c].lastModified + timeout;
        if expireTime < now {
          sessions := sessions - {c};
        }
        todo := todo - {c};
      }
      assert sessions == ExpireSessions(old(sessions), now, timeout);
    }

    /** The end of apply, for the session an entry belongs to. */
    method TouchSession(c: nat, clock: Clock)
      modifies this`sessions
      ensures View() == Touch(old(View()), c, clock, timeout)
    {
      if clock.Some? {
        if c in sessions {
          sessions := sessions[c := sessions[c].(lastModified := clock.value)];
        }
        DropStaleSessions(clock.value);
      }
    }

    method Apply(r: Request, clock: Clock)
      modifies this
      ensures View() == Touch(ApplyTree(old(View()), r), r.info.clientId, clock, timeout)
    {
      var c, n := r.info.clientId, r.info.rpcNumber;
      if c in sessions {
        var s := ExpireResponsesOf(sessions[c], r.info.firstOutstanding);
        if n < s.firstOutstanding {
          // response already discarded, do not re-apply
        } else if n !in s.responses {
          s := s.(responses := s.responses[n := |applied|]);
          applied := applied + [r];
        }
        sessions := sessions[c := s];
      }
      assert View() == ApplyTree(old(View()), r);
      TouchSession(c, clock);
    }

    method ApplyOpenSession(entryId: nat, clock: Clock)
      modifies this
      ensures View() == Touch(OpenSession(old(View()), entryId), entryId, clock, timeout)
    {
      if entryId !in sessions {
        sessions := sessions[entryId := NewSession];
      }
      TouchSession(entryId, clock);
    }

    /** StateMachine::getResponse */
    method GetResponse(info: RpcInfo) returns (found: bool, response: Response)
      ensures found <==> info.clientId in sessions && info.rpcNumber in sessions[info.clientId].responses
      ensures found ==> response == sessions[info.clientId].responses[info.rpcNumber]
    {
      if info.clientId !in sessions { return false, 0; }
      var s := sessions[info.clientId];
      if info.rpcNumber !in s.responses { return false, 0; }
      return true, s.responses[info.rpcNumber];
    }
  }

  // ------------------------------------------------------------------- the client

  datatype Client = Client(nextRPCNumber: nat, outstanding: set<nat>) {
    /** getRPCInfo, once the session is open. */
    function Begin(id: nat): (r: (Client, RpcInfo)) {
      var n := nextRPCNumber;
      var outstanding' := outstanding + {n};
      assert n in outstanding';
      (Client(n + 1, outstanding'), RpcInfo(id, n, Least(outstanding')))
    }

    function Done(n: nat): Client { this.(outstanding := outstanding - {n}) }
  }

  const NewClient := Client(1, {})

  class ExactlyOnceRPCHelper {
    var outstandingRPCNumbers: set<nat>
    var clientId: nat
    var nextRPCNumber: nat

    ghost function View(): Client
      reads this
    {
      Client(nextRPCNumber, outstandingRPCNumbers)
    }

    constructor ()
      ensures View() == NewClient && clientId == 0
    {
      outstandingRPCNumbers, clientId, nextRPCNumber := {}, 0, 1;
    }

    /** newId is the client id that an OPEN_SESSION call returns, should one be needed. */
    method GetRPCInfo(newId: nat) returns (info: RpcInfo)
      requires newId > 0
      modifies this
      ensures clientId == if old(clientId) == 0 then newId else old(clientId)
      ensures (View(), info) == old(View()).Begin(clientId)
    {
      if clientId == 0 {
        clientId := newId;
      }
      var rpcNumber := nextRPCNumber;
      nextRPCNumber := nextRPCNumber + 1;
      outstandingRPCNumbers := outstandingRPCNumbers + {rpcNumber};
      assert rpcNumber in outstandingRPCNumbers;
      info := RpcInfo(clientId, rpcNumber, Least(outstandingRPCNumbers));
    }

    method DoneWithRPC(info: RpcInfo)
      modifies this
      ensures View() == old(View()).Done(info.rpcNumber) && clientId == old(clientId)
    {
      outstandingRPCNumbers := outstandingRPCNumbers - {info.rpcNumber};
    }
  }

  // ------------------------------------------------------------------- the system

  datatype Reply = Reply(clientId: nat, rpcNumber: nat, response: Response)

  datatype System = System(
    server: Server,
    lastEntry: nat,                        // id of the last log entry
    openings: set<nat>,                    // ids of the entries that opened a session
    clients: map<nat, Client>,             // by session id, the id of the entry that opened it
    sent: seq<Request>,                    // requests in the order they were made up
    replies: set<Reply>,                   // replies under way
    results: map<(nat, nat), Response>)    // what calls returned, by client and RPC number

  const Init := System(Server(map[], []), 0, {}, map[], [], {}, map[])

  datatype Step =
    | CommitOpen(clock: Clock)               // an OPEN_SESSION request is committed
    | Adopt(c: nat)                          // a client takes up the session it opened
    | Call(c: nat, cmd: Command)             // a caller obtains its RPC info and sends
    | Commit(r: Request, clock: Clock)       // some copy of a sent request is committed and applied
    | Answer(c: nat, n: nat)                 // the server answers from its session table
    | Return(reply: Reply)                   // LeaderRPC::call returns
    | Done(c: nat, n: nat)                   // doneWithRPC

  predicate Enabled(s: System, step: Step) {
    match step
    case CommitOpen(clock) => true
    case Adopt(c) => c in s.openings && c !in s.clients
    case Call(c, cmd) => c in s.clients
    case Commit(r, clock) => r in s.sent
    case Answer(c, n) => c in s.server.sessions && n in s.server.sessions[c].responses
    case Return(reply) =>
      && reply in s.replies && reply.clientId in s.clients
      && (reply.clientId, reply.rpcNumber) !in s.results
    case Done(c, n) => c in s.clients && (c, n) in s.results
  }

  function Apply(s: System, step: Step, timeout: nat): System
    requires Enabled(s, step)
  {
    match step
    case CommitOpen(clock) =>
      var e := s.lastEntry + 1;
      s.(lastEntry := e, openings := s.openings + {e}, server := Touch(OpenSession(s.server, e), e, clock, timeout))
    case Adopt(c) => s.(clients := s.clients[c := NewClient])
    case Call(c, cmd) =>
      var (client, info) := s.clients[c].Begin(c);
      s.(clients := s.clients[c := client], sent := s.sent + [Request(info, cmd)])
    case Commit(r, clock) =>
      s.(lastEntry := s.lastEntry + 1, server := Touch(ApplyTree(s.server, r), r.info.clientId, clock, timeout))
    case Answer(c, n) => s.(replies := s.replies + {Reply(c, n, s.server.sessions[c].responses[n])})
    case Return(reply) => s.(results := s.results[(reply.clientId, reply.rpcNumber) := reply.response])
    case Done(c, n) => s.(clients := s.clients[c := s.clients[c].Done(n)])
  }

  ghost predicate Run(s0: System, steps: seq<Step>, timeout: nat, s: System)
    decreases |steps|
  {
    if steps == [] then s == s0
    else Enabled(s0, steps[0]) && Run(Apply(s0, steps[0], timeout), steps[1..], timeout, s)
  }

  /** A run from the start leads to the state. */
  ghost predicate Reaches(steps: seq<Step>, timeout: nat, s: System) { Run(Init, steps, timeout, s) }

  ghost predicate Reachable(s: System) {
    exists steps, timeout :: Reaches(steps, timeout, s)
  }

  // ------------------------------------------------------------------- invariants

  /** Numbers handed out so far, and what the requests say about them. */
  ghost predicate InvSent(s: System) {
    && (forall c :: c in s.clients ==> c in s.openings && 0 < s.clients[c].nextRPCNumber)
    && (forall c :: c in s.openings ==> c <= s.lastEntry)
    && (forall c, m :: c in s.clients && m in s.clients[c].outstanding ==> m < s.clients[c].nextRPCNumber)
    && (forall i :: 0 <= i < |s.sent| ==> SentOk(s, s.sent[i].info))
    && (forall i, j :: 0 <= i < j < |s.sent| && s.sent[i].info.clientId == s.sent[j].info.clientId ==>
          && s.sent[i].info.rpcNumber < s.sent[j].info.rpcNumber
          && s.sent[i].info.firstOutstanding <= s.sent[j].info.firstOutstanding)
  }

  predicate SentOk(s: System, info: RpcInfo) {
    && info.clientId in s.clients
    && info.firstOutstanding <= info.rpcNumber < s.clients[info.clientId].nextRPCNumber
    && FirstOk(s.clients[info.clientId], info.firstOutstanding)
  }

  /** No RPC numbered below first is still waiting for its response. */
  predicate FirstOk(client: Client, first: nat) {
    forall m :: m in client.outstanding ==> first <= m
  }

  predicate IsApplication(sv: Server, c: nat, n: nat, at: Response) {
    at < |sv.applied| && sv.applied[at].Is(c, n)
  }

  ghost predicate InvSession(s: System, c: nat)
    requires c in s.server.sessions
  {
    var session := s.server.sessions[c];
    && c in s.openings
    && (if c in s.clients then
          session.firstOutstanding <= s.clients[c].nextRPCNumber && FirstOk(s.clients[c], session.firstOutstanding)
        else
          session.firstOutstanding == 0 && session.responses == map[])
    && (forall n :: n in session.responses ==> IsApplication(s.server, c, n, session.responses[n]))
  }

  /** Whatever was applied for a live session is remembered there, or was given up by the client. */
  predicate Remembered(sv: Server, r: Request) {
    r.info.clientId in sv.sessions ==>
      var session := sv.sessions[r.info.clientId];
      r.info.rpcNumber in session.responses || r.info.rpcNumber < session.firstOutstanding
  }

  ghost predicate InvServer(s: System) {
    && (forall c :: c in s.server.sessions ==> InvSession(s, c))
    && (forall i :: 0 <= i < |s.server.applied| ==>
          s.server.applied[i] in s.sent && Remembered(s.server, s.server.applied[i]))
    && (forall i, j :: 0 <= i < j < |s.server.applied| ==>
          !s.server.applied[j].Is(s.server.applied[i].info.clientId, s.server.applied[i].info.rpcNumber))
  }

  ghost predicate InvReplies(s: System) {
    && (forall r :: r in s.replies ==> IsApplication(s.server, r.clientId, r.rpcNumber, r.response))
    && (forall c, n :: (c, n) in s.results ==> IsApplication(s.server, c, n, s.results[(c, n)]))
  }

  /** A call has been made and has not returned. */
  predicate Awaited(s: System, r: Request) {
    r in s.sent && (r.info.clientId, r.info.rpcNumber) !in s.results
  }

  /** Callers say they are done only after their call returned. */
  ghost predicate InvAwaited(s: System) {
    forall r :: Awaited(s, r) ==>
      r.info.clientId in s.clients && r.info.rpcNumber in s.clients[r.info.clientId].outstanding
  }

  ghost predicate Inv(s: System) {
    InvSent(s) && InvServer(s) && InvReplies(s)
  }

  // ------------------------------------------------------ steps keep the invariants

  lemma SentFrame(s: System, s': System)
    requires InvSent(s) && s'.sent == s.sent && s'.clients == s.clients && s.openings <= s'.openings
    requires forall c :: c in s'.openings ==> c <= s'.lastEntry
    ensures InvSent(s')
  {
    forall i | 0 <= i < |s'.sent| ensures SentOk(s', s'.sent[i].info) {
      assert SentOk(s, s.sent[i].info);
    }
  }

  lemma RepliesFrame(s: System, s': System)
    requires InvReplies(s) && s.server.applied <= s'.server.applied
    requires s'.replies == s.replies && s'.results == s.results
    ensures InvReplies(s')
  {
    forall c, n, at | IsApplication(s.server, c, n, at) ensures IsApplication(s'.server, c, n, at) {
    }
  }

  lemma InvCall(s: System, c: nat, cmd: Command, timeout: nat)
    requires Inv(s) && c in s.clients
    ensures Inv(Apply(s, Call(c, cmd), timeout))
  {
    var s' := Apply(s, Call(c, cmd), timeout);
    var client, client' := s.clients[c], s'.clients[c];
    var info := s'.sent[|s.sent|].info;
    assert info.firstOutstanding in client'.outstanding;
    forall i | 0 <= i < |s.sent| && s.sent[i].info.clientId == c
      ensures s.sent[i].info.firstOutstanding <= info.firstOutstanding
    {
      assert SentOk(s, s.sent[i].info);
    }
    forall i | 0 <= i < |s'.sent| ensures SentOk(s', s'.sent[i].info) {
      if i < |s.sent| { assert SentOk(s, s.sent[i].info); }
    }
    forall d | d in s'.server.sessions ensures InvSession(s', d) {
      assert InvSession(s, d);
    }
  }

  lemma InvDone(s: System, c: nat, n: nat, timeout: nat)
    requires Inv(s) && Enabled(s, Done(c, n))
    ensures Inv(Apply(s, Done(c, n), timeout))
  {
    var s' := Apply(s, Done(c, n), timeout);
    forall i | 0 <= i < |s'.sent| ensures SentOk(s', s'.sent[i].info) {
      assert SentOk(s, s.sent[i].info);
    }
    forall d | d in s'.server.sessions ensures InvSession(s', d) {
      assert InvSession(s, d);
    }
  }

  lemma InvAdopt(s: System, c: nat, timeout: nat)
    requires Inv(s) && Enabled(s, Adopt(c))
    ensures Inv(Apply(s, Adopt(c), timeout))
  {
    var s' := Apply(s, Adopt(c), timeout);
    forall i | 0 <= i < |s'.sent| ensures SentOk(s', s'.sent[i].info) {
      assert SentOk(s, s.sent[i].info);
    }
    forall d | d in s'.server.sessions ensures InvSession(s', d) {
      assert InvSession(s, d);
    }
  }

  /** Touching sessions only forgets whole sessions. */
  lemma InvTouch(s: System, c: nat, clock: Clock, timeout: nat)
    requires InvServer(s)
    ensures InvServer(s.(server := Touch(s.server, c, clock, timeout)))
  {
    var s' := s.(server := Touch(s.server, c, clock, timeout));
    forall d | d in s'.server.sessions ensures InvSession(s', d) {
      assert InvSession(s, d);
    }
    forall i | 0 <= i < |s'.server.applied| ensures Remembered(s'.server, s'.server.applied[i]) {
      assert Remembered(s.server, s.server.applied[i]);
    }
  }

  lemma ApplyTreeSessions(s: System, r: Request)
    requires InvSent(s) && InvServer(s) && r in s.sent
    ensures var s' := s.(server := ApplyTree(s.server, r));
            forall d :: d in s'.server.sessions ==> InvSession(s', d)
  {
    var s' := s.(server := ApplyTree(s.server, r));
    assert SentOk(s, r.info);
    forall d | d in s'.server.sessions ensures InvSession(s', d) {
      assert InvSession(s, d);
    }
  }

  lemma ApplyTreeRemembers(s: System, r: Request, i: nat)
    requires InvServer(s) && r in s.sent && i < |ApplyTree(s.server, r).applied|
    ensures ApplyTree(s.server, r).applied[i] in s.sent
    ensures Remembered(ApplyTree(s.server, r), ApplyTree(s.server, r).applied[i])
  {
    if i < |s.server.applied| { assert Remembered(s.server, s.server.applied[i]); }
  }

  /** What is applied is appended, and was not applied before. */
  lemma ApplyTreeIsFresh(s: System, r: Request, i: nat)
    requires InvServer(s) && i < |s.server.applied|
    ensures s.server.applied <= ApplyTree(s.server, r).applied
    ensures |ApplyTree(s.server, r).applied| > |s.server.applied| ==>
              !r.Is(s.server.applied[i].info.clientId, s.server.applied[i].info.rpcNumber)
  {
    assert Remembered(s.server, s.server.applied[i]);
  }

  lemma InvApplyTree(s: System, r: Request)
    requires InvSent(s) && InvServer(s) && r in s.sent
    ensures InvServer(s.(server := ApplyTree(s.server, r)))
    ensures s.server.applied <= ApplyTree(s.server, r).applied
  {
    var before, after := s.server.applied, ApplyTree(s.server, r).applied;
    ApplyTreeSessions(s, r);
    forall i | 0 <= i < |after| ensures after[i] in s.sent && Remembered(ApplyTree(s.server, r), after[i]) {
      ApplyTreeRemembers(s, r, i);
    }
    forall i, j | 0 <= i < j < |after| ensures !after[j].Is(after[i].info.clientId, after[i].info.rpcNumber) {
      if j == |before| { ApplyTreeIsFresh(s, r, i); }
    }
  }

  lemma InvCommit(s: System, r: Request, clock: Clock, timeout: nat)
    requires Inv(s) && Enabled(s, Commit(r, clock))
    ensures Inv(Apply(s, Commit(r, clock), timeout))
  {
    InvApplyTree(s, r);
    var s1 := s.(server := ApplyTree(s.server, r));
    InvTouch(s1, r.info.clientId, clock, timeout);
    var s2 := s1.(server := Touch(s1.server, r.info.clientId, clock, timeout));
    var s' := Apply(s, Commit(r, clock), timeout);
    assert s' == s2.(lastEntry := s.lastEntry + 1);
    forall d | d in s'.server.sessions ensures InvSession(s', d) {
      assert InvSession(s2, d);
    }
    SentFrame(s, s');
    RepliesFrame(s, s');
  }

  /** A new session, whose id no client or request knows yet. */
  lemma InvOpenSession(s: System)
    requires Inv(s)
    ensures var e := s.lastEntry + 1;
            InvServer(s.(lastEntry := e, openings := s.openings + {e}, server := OpenSession(s.server, e)))
  {
    var e := s.lastEntry + 1;
    var s' := s.(lastEntry := e, openings := s.openings + {e}, server := OpenSession(s.server, e));
    assert e !in s.clients;
    forall d | d in s'.server.sessions ensures InvSession(s', d) {
      if d in s.server.sessions { assert InvSession(s, d); }
    }
    forall i | 0 <= i < |s'.server.applied| ensures Remembered(s'.server, s'.server.applied[i]) {
      assert Remembered(s.server, s.server.applied[i]);
      assert s.server.applied[i] in s.sent;
    }
  }

  lemma InvCommitOpen(s: System, clock: Clock, timeout: nat)
    requires Inv(s)
    ensures Inv(Apply(s, CommitOpen(clock), timeout))
  {
    var e := s.lastEntry + 1;
    var s1 := s.(lastEntry := e, openings := s.openings + {e}, server := OpenSession(s.server, e));
    var s' := Apply(s, CommitOpen(clock), timeout);
    assert s' == s1.(server := Touch(s1.server, e, clock, timeout));
    InvOpenSession(s);
    InvTouch(s1, e, clock, timeout);
    SentFrame(s, s');
    RepliesFrame(s, s');
  }

  /** Answering and returning touch neither the requests nor the server. */
  lemma InvReplyStep(s: System, step: Step, timeout: nat)
    requires Inv(s) && Enabled(s, step) && (step.Answer? || step.Return?)
    ensures Inv(Apply(s, step, timeout))
  {
    var s' := Apply(s, step, timeout);
    if step.Answer? { assert InvSession(s, step.c); }
    SentFrame(s, s');
    forall d | d in s'.server.sessions ensures InvSession(s', d) {
      assert InvSession(s, d);
    }
  }

  lemma InvStep(s: System, step: Step, timeout: nat)
    requires Inv(s) && Enabled(s, step)
    ensures Inv(Apply(s, step, timeout))
  {
    match step
    case CommitOpen(clock) => InvCommitOpen(s, clock, timeout);
    case Adopt(c) => InvAdopt(s, c, timeout);
    case Call(c, cmd) => InvCall(s, c, cmd, timeout);
    case Commit(r, clock) => InvCommit(s, r, clock, timeout);
    case Answer(c, n) => InvReplyStep(s, step, timeout);
    case Return(reply) => InvReplyStep(s, step, timeout);
    case Done(c, n) => InvDone(s, c, n, timeout);
  }

  lemma AwaitedStep(s: System, step: Step, timeout: nat)
    requires InvAwaited(s) && Enabled(s, step)
    ensures InvAwaited(Apply(s, step, timeout))
  {
    var s' := Apply(s, step, timeout);
    forall r | Awaited(s', r)
      ensures r.info.clientId in s'.clients && r.info.rpcNumber in s'.clients[r.info.clientId].outstanding
    {
      if r in s.sent { assert Awaited(s, r); }
    }
  }

  lemma {:induction false} InvRun(s0: System, steps: seq<Step>, timeout: nat, s: System)
    requires Inv(s0) && InvAwaited(s0) && Run(s0, steps, timeout, s)
    ensures Inv(s) && InvAwaited(s)
    decreases |steps|
  {
    if steps != [] {
      InvStep(s0, steps[0], timeout);
      AwaitedStep(s0, steps[0], timeout);
      InvRun(Apply(s0, steps[0], timeout), steps[1..], timeout, s);
    }
  }

  lemma ReachableInv(s: System)
    requires Reachable(s)
    ensures Inv(s) && InvAwaited(s)
  {
    var steps, timeout :| Reaches(steps, timeout, s);
    InvRun(Init, steps, timeout, s);
  }

  // --------------------------------------------------------------------- theorems

  /** A client's RPC numbers are never reused, and its first_outstanding_rpc never decreases. */
  lemma NumbersAreFresh(s: System, i: nat, j: nat)
    requires Reachable(s) && i < j < |s.sent| && s.sent[i].info.clientId == s.sent[j].info.clientId
    ensures s.sent[i].info.rpcNumber < s.sent[j].info.rpcNumber
    ensures s.sent[i].info.firstOutstanding <= s.sent[j].info.firstOutstanding
  {
    ReachableInv(s);
  }

  /** No request ever made has a first_outstanding_rpc above a number whose call has not returned, its own included. */
  lemma FirstOutstandingIsSafe(s: System, r: Request, waiting: Request)
    requires Reachable(s) && r in s.sent && Awaited(s, waiting) && waiting.info.clientId == r.info.clientId
    ensures r.info.firstOutstanding <= waiting.info.rpcNumber
    ensures r.info.firstOutstanding <= r.info.rpcNumber
  {
    ReachableInv(s);
    assert SentOk(s, r.info);
  }

  /** A call that returned was applied exactly once, with its own command, and got that application's response. */
  lemma ReturnedCallsApplyExactlyOnce(s: System, c: nat, n: nat)
    requires Reachable(s) && (c, n) in s.results
    ensures var at := s.results[(c, n)];
            && at < |s.server.applied|
            && s.server.applied[at].Is(c, n)
            && (forall i :: 0 <= i < |s.server.applied| && s.server.applied[i].Is(c, n) ==> i == at)
            && s.server.applied[at] in s.sent
            && (forall r :: r in s.sent && r.Is(c, n) ==> r == s.server.applied[at])
  {
    ReachableInv(s);
    var at := s.results[(c, n)];
    assert IsApplication(s.server, c, n, at);
    forall r | r in s.sent && r.Is(c, n) ensures r == s.server.applied[at] {
      SentUnique(s, r, s.server.applied[at]);
    }
  }

  lemma SentUnique(s: System, r: Request, r': Request)
    requires InvSent(s) && r in s.sent && r' in s.sent && r.Is(r'.info.clientId, r'.info.rpcNumber)
    ensures r == r'
  {
    var i :| 0 <= i < |s.sent| && s.sent[i] == r;
    var j :| 0 <= j < |s.sent| && s.sent[j] == r';
  }

  /** Until a call has returned, and while its session lives, the server keeps the response it has computed for it. */
  lemma WaitingCallIsNeverDiscarded(s: System, at: nat, c: nat, n: nat)
    requires Reachable(s) && at < |s.server.applied| && s.server.applied[at].Is(c, n)
    requires (c, n) !in s.results && c in s.server.sessions
    ensures n in s.server.sessions[c].responses && s.server.sessions[c].responses[n] == at
  {
    ReachableInv(s);
    var r := s.server.applied[at];
    assert Awaited(s, r) && Remembered(s.server, r);
    assert InvSession(s, c);
    var at' := s.server.sessions[c].responses[n];
    assert IsApplication(s.server, c, n, at');
  }

  lemma StepIsMonotone(s: System, step: Step, timeout: nat)
    requires Enabled(s, step)
    ensures s.server.applied <= Apply(s, step, timeout).server.applied
    ensures forall k :: k in s.results ==>
              k in Apply(s, step, timeout).results && Apply(s, step, timeout).results[k] == s.results[k]
  {
  }

  /** Later steps neither undo an application nor change what a call returned. */
  lemma {:induction false} OutcomesArePermanent(s0: System, steps: seq<Step>, timeout: nat, s: System)
    requires Run(s0, steps, timeout, s)
    ensures s0.server.applied <= s.server.applied
    ensures forall k :: k in s0.results ==> k in s.results && s.results[k] == s0.results[k]
    decreases |steps|
  {
    if steps != [] {
      StepIsMonotone(s0, steps[0], timeout);
      OutcomesArePermanent(Apply(s0, steps[0], timeout), steps[1..], timeout, s);
    }
  }

  // ------------------------------------------------------------ calls are answered

  lemma ThreeSteps(s: System, a: Step, b: Step, c: Step, timeout: nat)
    requires Enabled(s, a) && Enabled(Apply(s, a, timeout), b)
    requires Enabled(Apply(Apply(s, a, timeout), b, timeout), c)
    ensures Run(s, [a, b, c], timeout, Apply(Apply(Apply(s, a, timeout), b, timeout), c, timeout))
  {
    var s3 := Apply(Apply(Apply(s, a, timeout), b, timeout), c, timeout);
    assert [a, b, c][1..] == [b, c] && [b, c][1..] == [c] && [c][1..] == [];
    assert Run(s3, [], timeout, s3);
  }

  /** What a request leaves in its session while its call has not returned: a response to it. */
  lemma CommitResponds(s: System, r: Request)
    requires Inv(s) && InvAwaited(s) && Awaited(s, r) && r.info.clientId in s.server.sessions
    ensures var sessions := ApplyTree(s.server, r).sessions;
            r.info.clientId in sessions && r.info.rpcNumber in sessions[r.info.clientId].responses
  {
    assert SentOk(s, r.info);
    assert InvSession(s, r.info.clientId);
  }

  /** A call that has not returned, and whose session lives, returns once its request is committed and answered. */
  lemma AwaitedCallReturns(s: System, r: Request, timeout: nat) returns (at: Response, s': System)
    requires Reachable(s) && Awaited(s, r) && r.info.clientId in s.server.sessions
    ensures var c, n := r.info.clientId, r.info.rpcNumber;
            && Run(s, [Commit(r, None), Answer(c, n), Return(Reply(c, n, at))], timeout, s')
            && (c, n) in s'.results && s'.results[(c, n)] == at
  {
    var c, n := r.info.clientId, r.info.rpcNumber;
    ReachableInv(s);
    CommitResponds(s, r);
    assert SentOk(s, r.info);
    at := ApplyTree(s.server, r).sessions[c].responses[n];
    var s1 := Apply(s, Commit(r, None), timeout);
    var s2 := Apply(s1, Answer(c, n), timeout);
    s' := Apply(s2, Return(Reply(c, n, at)), timeout);
    ThreeSteps(s, Commit(r, None), Answer(c, n), Return(Reply(c, n, at)), timeout);
  }

  /** While a call has not returned, its session has a response to it exactly if it was applied. */
  lemma RespondedIff(s: System, r: Request)
    requires Inv(s) && InvAwaited(s) && Awaited(s, r) && r.info.clientId in s.server.sessions
    ensures r.info.rpcNumber in s.server.sessions[r.info.clientId].responses <==> r in s.server.applied
  {
    var c, n := r.info.clientId, r.info.rpcNumber;
    assert InvSession(s, c);
    if r in s.server.applied {
      var i :| 0 <= i < |s.server.applied| && s.server.applied[i] == r;
      assert Remembered(s.server, r);
    }
    if n in s.server.sessions[c].responses {
      var at := s.server.sessions[c].responses[n];
      assert IsApplication(s.server, c, n, at);
      SentUnique(s, r, s.server.applied[at]);
    }
  }

  /** The first copy of a call's request to be committed is applied, and no other. */
  lemma AppliedIff(s: System, r: Request, clock: Clock, timeout: nat)
    requires Reachable(s) && Awaited(s, r)
    ensures var before, after := s.server.applied, Apply(s, Commit(r, clock), timeout).server.applied;
            after == if r.info.clientId in s.server.sessions && r !in before then before + [r] else before
  {
    ReachableInv(s);
    assert SentOk(s, r.info);
    if r.info.clientId in s.server.sessions {
      assert InvSession(s, r.info.clientId);
      RespondedIff(s, r);
    }
  }

  // ------------------------------------------------- responses are kept and discarded

  /** A session holds no response below its first outstanding number. */
  predicate Collected(sessions: map<nat, Session>) {
    forall c, n :: c in sessions && n in sessions[c].responses ==> sessions[c].firstOutstanding <= n
  }

  lemma CollectedStep(s: System, step: Step, timeout: nat)
    requires Collected(s.server.sessions) && Enabled(s, step)
    ensures Collected(Apply(s, step, timeout).server.sessions)
  {
  }

  lemma {:induction false} CollectedRun(s0: System, steps: seq<Step>, timeout: nat, s: System)
    requires Collected(s0.server.sessions) && Run(s0, steps, timeout, s)
    ensures Collected(s.server.sessions)
    decreases |steps|
  {
    if steps != [] {
      CollectedStep(s0, steps[0], timeout);
      CollectedRun(Apply(s0, steps[0], timeout), steps[1..], timeout, s);
    }
  }

  /** A committed request discards exactly the responses below the greatest first outstanding number seen. */
  lemma DiscardedIff(s: System, r: Request, clock: Clock, timeout: nat, n: nat)
    requires Reachable(s) && Enabled(s, Commit(r, clock)) && r.info.clientId in s.server.sessions
    requires n in s.server.sessions[r.info.clientId].responses
    ensures var c, sessions := r.info.clientId, Apply(s, Commit(r, clock), timeout).server.sessions;
            c in sessions && (n !in sessions[c].responses <==> n < r.info.firstOutstanding)
  {
    var steps, t :| Reaches(steps, t, s);
    CollectedRun(Init, steps, t, s);
  }

  /** The helper's outstanding numbers are those it gave out and was not told were done. */
  ghost predicate OutstandingIs(s: System, done: set<(nat, nat)>) {
    forall c, m :: c in s.clients ==>
      (m in s.clients[c].outstanding <==> 1 <= m < s.clients[c].nextRPCNumber && (c, m) !in done)
  }

  ghost predicate DoneKnown(s: System, done: set<(nat, nat)>) {
    forall k :: k in done ==> k in s.results
  }

  /** The numbers that callers said they were done with. */
  function DoneIn(steps: seq<Step>): set<(nat, nat)> {
    set i | 0 <= i < |steps| && steps[i].Done? :: (steps[i].c, steps[i].n)
  }

  lemma ResultsAreNumbered(s: System, k: (nat, nat))
    requires Inv(s) && k in s.results
    ensures k.0 in s.clients && k.1 < s.clients[k.0].nextRPCNumber
  {
    assert IsApplication(s.server, k.0, k.1, s.results[(k.0, k.1)]);
    var r := s.server.applied[s.results[k]];
    assert r in s.sent;
    assert SentOk(s, r.info);
  }

  lemma OutstandingStep(s: System, step: Step, timeout: nat, done: set<(nat, nat)>)
    requires Inv(s) && Enabled(s, step) && OutstandingIs(s, done) && DoneKnown(s, done)
    ensures var done' := done + if step.Done? then {(step.c, step.n)} else {};
            OutstandingIs(Apply(s, step, timeout), done') && DoneKnown(Apply(s, step, timeout), done')
  {
    var s' := Apply(s, step, timeout);
    var done' := done + if step.Done? then {(step.c, step.n)} else {};
    forall c, m | c in s'.clients
      ensures m in s'.clients[c].outstanding <==> 1 <= m < s'.clients[c].nextRPCNumber && (c, m) !in done'
    {
      if (c, m) in done { ResultsAreNumbered(s, (c, m)); }
    }
  }

  lemma DoneInFront(steps: seq<Step>, step: Step)
    ensures DoneIn([step] + steps) == (if step.Done? then {(step.c, step.n)} else {}) + DoneIn(steps)
  {
    var all := [step] + steps;
    forall k | k in DoneIn(steps) ensures k in DoneIn(all) {
      var i :| 0 <= i < |steps| && steps[i].Done? && k == (steps[i].c, steps[i].n);
      assert all[i + 1] == steps[i];
    }
    if step.Done? { assert all[0] == step; }
    forall k | k in DoneIn(all) ensures k in (if step.Done? then {(step.c, step.n)} else {}) + DoneIn(steps) {
      var i :| 0 <= i < |all| && all[i].Done? && k == (all[i].c, all[i].n);
      if i > 0 { assert steps[i - 1] == all[i]; }
    }
  }

  lemma {:induction false} OutstandingRun(s0: System, steps: seq<Step>, timeout: nat, s: System, done: set<(nat, nat)>)
    requires Inv(s0) && Run(s0, steps, timeout, s) && OutstandingIs(s0, done) && DoneKnown(s0, done)
    ensures OutstandingIs(s, done + DoneIn(steps))
    decreases |steps|
  {
    if steps == [] {
      assert done + DoneIn(steps) == done;
    } else {
      var now := if steps[0].Done? then {(steps[0].c, steps[0].n)} else {};
      InvStep(s0, steps[0], timeout);
      OutstandingStep(s0, steps[0], timeout, done);
      OutstandingRun(Apply(s0, steps[0], timeout), steps[1..], timeout, s, done + now);
      assert steps == [steps[0]] + steps[1..];
      DoneInFront(steps[1..], steps[0]);
      assert done + now + DoneIn(steps[1..]) == done + DoneIn(steps);
    }
  }

  /** The first outstanding number of a new request is the least one whose caller is not done, or the request's own. */
  lemma FirstOutstandingIsLeast(steps: seq<Step>, timeout: nat, s: System, c: nat, m: nat)
    requires Reaches(steps, timeout, s) && c in s.clients && 1 <= m
    ensures var info := s.clients[c].Begin(c).1;
            && info.rpcNumber == s.clients[c].nextRPCNumber
            && (c, info.firstOutstanding) !in DoneIn(steps)
            && (m < info.firstOutstanding ==> (c, m) in DoneIn(steps))
  {
    InvRun(Init, steps, timeout, s);
    OutstandingRun(Init, steps, timeout, s, {});
    DoneAreKnown(Init, steps, timeout, s, {});
    var info := s.clients[c].Begin(c).1;
    assert {} + DoneIn(steps) == DoneIn(steps);
    if (c, info.firstOutstanding) in DoneIn(steps) { ResultsAreNumbered(s, (c, info.firstOutstanding)); }
  }

  lemma {:induction false} DoneAreKnown(s0: System, steps: seq<Step>, timeout: nat, s: System, done: set<(nat, nat)>)
    requires Inv(s0) && Run(s0, steps, timeout, s) && DoneKnown(s0, done)
    ensures DoneKnown(s, done + DoneIn(steps))
    decreases |steps|
  {
    if steps == [] {
      assert done + DoneIn(steps) == done;
    } else {
      var now := if steps[0].Done? then {(steps[0].c, steps[0].n)} else {};
      InvStep(s0, steps[0], timeout);
      DoneAreKnown(Apply(s0, steps[0], timeout), steps[1..], timeout, s, done + now);
      assert steps == [steps[0]] + steps[1..];
      DoneInFront(steps[1..], steps[0]);
      assert done + now + DoneIn(steps[1..]) == done + DoneIn(steps);
    }
  }

  // ------------------------------------------------------------ how long sessions live

  /** The clock reading of a step that commits an entry. */
  function ClockOf(step: Step): Clock {
    match step
    case CommitOpen(clock) => clock
    case Commit(r, clock) => clock
    case _ => None
  }

  /** When the session was last used, if last is when it was before the step. */
  function LastUse(step: Step, c: nat, last: nat): nat {
    if step.Commit? && step.r.info.clientId == c && step.clock.Some? then step.clock.value else last
  }

  /** No clock reading comes more than the timeout after the last one of an entry of the session. */
  ghost predicate KeptAlive(steps: seq<Step>, c: nat, last: nat, timeout: nat)
    decreases |steps|
  {
    steps == [] || (
      && (ClockOf(steps[0]).Some? ==> ClockOf(steps[0]).value <= LastUse(steps[0], c, last) + timeout)
      && KeptAlive(steps[1..], c, LastUse(steps[0], c, last), timeout))
  }

  lemma LivesStep(s: System, step: Step, timeout: nat, c: nat)
    requires Inv(s) && Enabled(s, step) && c in s.server.sessions
    ensures var sessions, last := Apply(s, step, timeout).server.sessions, s.server.sessions[c].lastModified;
            && (c in sessions <==>
                  (ClockOf(step).Some? ==> ClockOf(step).value <= LastUse(step, c, last) + timeout))
            && (c in sessions ==> sessions[c].lastModified == LastUse(step, c, last))
  {
    assert InvSession(s, c);
  }

  lemma ClosedStep(s: System, step: Step, timeout: nat, c: nat)
    requires InvSent(s) && Enabled(s, step) && c in s.openings && c !in s.server.sessions
    ensures var s' := Apply(s, step, timeout); c in s'.openings && c !in s'.server.sessions
  {
  }

  lemma {:induction false} ClosedStays(s0: System, steps: seq<Step>, timeout: nat, s: System, c: nat)
    requires Inv(s0) && Run(s0, steps, timeout, s) && c in s0.openings && c !in s0.server.sessions
    ensures c !in s.server.sessions
    decreases |steps|
  {
    if steps != [] {
      InvStep(s0, steps[0], timeout);
      ClosedStep(s0, steps[0], timeout, c);
      ClosedStays(Apply(s0, steps[0], timeout), steps[1..], timeout, s, c);
    }
  }

  /** A session lives exactly as long as the clock never gets more than the timeout ahead of its last use. */
  lemma {:induction false} SessionLivesIff(s0: System, steps: seq<Step>, timeout: nat, s: System, c: nat)
    requires Inv(s0) && Run(s0, steps, timeout, s) && c in s0.server.sessions
    ensures c in s.server.sessions <==> KeptAlive(steps, c, s0.server.sessions[c].lastModified, timeout)
    decreases |steps|
  {
    if steps != [] {
      var s1 := Apply(s0, steps[0], timeout);
      InvStep(s0, steps[0], timeout);
      LivesStep(s0, steps[0], timeout, c);
      assert InvSession(s0, c);
      if c in s1.server.sessions {
        SessionLivesIff(s1, steps[1..], timeout, s, c);
      } else {
        ClosedStays(s1, steps[1..], timeout, s, c);
      }
    }
  }

  /** A session that is opened lives, was used at the entry's clock reading, and has no responses. */
  lemma OpenedSessionLives(s: System, clock: Clock, timeout: nat)
    requires Reachable(s)
    ensures var e, sessions := s.lastEntry + 1, Apply(s, CommitOpen(clock), timeout).server.sessions;
            e in sessions && sessions[e] == Session(if clock.Some? then clock.value else 0, 0, map[])
  {
    ReachableInv(s);
  }
}
