/**
 Leader failover: callers of LeaderRPC::call share one session to the supposed
 leader, and every caller whose RPC fails asks for a new one.

 Sessions are compared by pointer, as shared_ptr does.  An address may be used
 again once nobody refers to the session that had it, so equality of addresses
 means identity only because callers keep their reference while they compare.
 */
module LeaderSession {

  type Caller = nat
  type Address = nat

  /** A reference to a session: its address, and (for the proof) how many sessions preceded it. */
  datatype Session = Session(addr: Address, gen: nat)

  /** Which host a connection goes to. */
  datatype Target = AnyHost | Hinted(host: string)

  datatype State = State(
    leader: Session,
    cached: map<Caller, Session>,  // the references callers hold
    replaced: seq<Session>,        // sessions given up, in order
    targets: seq<Target>)          // where the new session of each replacement was opened

  /** How one attempt at an RPC ends, with the contents of a service-specific error. */
  datatype Outcome =
    | OK
    | NotLeader(hasHint: bool, hint: string)
    | SessionExpired
    | UnknownError
    | RpcFailed

  datatype Verdict = Return | Retry | Panic

  datatype Step =
    | Cache(c: Caller)                               // a loop iteration starts
    | Finish(c: Caller, outcome: Outcome, at: Address)  // its RPC ended; at is where a new session would be
    | Drop(c: Caller)                                // the iteration ends

  function VerdictOf(outcome: Outcome): Verdict {
    match outcome
    case OK => Return
    case NotLeader(_, _) => Retry
    case RpcFailed => Retry
    case SessionExpired => Panic
    case UnknownError => Panic
  }

  function TargetOf(outcome: Outcome): Target {
    if outcome.NotLeader? && outcome.hasHint then Hinted(outcome.hint) else AnyHost
  }

  /** connectRandom and connectHost: reconnect if the failed session is still the current one. */
  function Reconnect(s: State, failed: Session, target: Target, at: Address): State {
    if failed.addr == s.leader.addr
    then
      s.(leader := Session(at, s.leader.gen + 1),
         replaced := s.replaced + [s.leader],
         targets := s.targets + [target])
    else s
  }

  /** A new session is created while the old one and the callers' ones are alive. */
  predicate Allocatable(s: State, at: Address) {
    at != s.leader.addr && forall c :: c in s.cached ==> s.cached[c].addr != at
  }

  predicate Enabled(s: State, step: Step) {
    match step
    case Cache(c) => c !in s.cached
    case Finish(c, outcome, at) => c in s.cached && Allocatable(s, at)
    case Drop(c) => c in s.cached
  }

  function Apply(s: State, step: Step): State
    requires Enabled(s, step)
  {
    match step
    case Cache(c) => s.(cached := s.cached[c := s.leader])
    case Finish(c, outcome, at) =>
      if VerdictOf(outcome) == Retry then Reconnect(s, s.cached[c], TargetOf(outcome), at) else s
    case Drop(c) => s.(cached := s.cached - {c})
  }

  function Init(at: Address): State { State(Session(at, 0), map[], [], []) }

  ghost predicate Run(s0: State, steps: seq<Step>, s: State)
    decreases |steps|
  {
    if steps == [] then s == s0
    else Enabled(s0, steps[0]) && Run(Apply(s0, steps[0]), steps[1..], s)
  }

  ghost predicate Reachable(s: State) {
    exists at, steps :: Run(Init(at), steps, s)
  }

  predicate Inv(s: State) {
    && |s.replaced| == |s.targets| == s.leader.gen
    && (forall i :: 0 <= i < |s.replaced| ==> s.replaced[i].gen == i)
    && (forall c :: c in s.cached ==>
          && s.cached[c].gen <= s.leader.gen
          && (s.cached[c].addr == s.leader.addr <==> s.cached[c].gen == s.leader.gen))
  }

  lemma InvStep(s: State, step: Step)
    requires Inv(s) && Enabled(s, step)
    ensures Inv(Apply(s, step))
  {
  }

  lemma {:induction false} InvRun(s0: State, steps: seq<Step>, s: State)
    requires Inv(s0) && Run(s0, steps, s)
    ensures Inv(s)
    decreases |steps|
  {
    if steps != [] {
      InvStep(s0, steps[0]);
      InvRun(Apply(s0, steps[0]), steps[1..], s);
    }
  }

  lemma ReachableInv(s: State)
    requires Reachable(s)
    ensures Inv(s)
  {
    var at, steps :| Run(Init(at), steps, s);
    InvRun(Init(at), steps, s);
  }

  // ------------------------------------------- reconnects over whole runs

  /** A caller that holds session g finds that its RPC failed. */
  predicate FailsOn(s: State, step: Step, g: nat) {
    step.Finish? && VerdictOf(step.outcome) == Retry && step.c in s.cached && s.cached[step.c].gen == g
  }

  /** A caller that holds session g puts another session in the leader's place. */
  predicate Reconnects(s: State, step: Step, g: nat)
    requires Enabled(s, step)
  {
    step.Finish? && s.cached[step.c].gen == g && Apply(s, step).leader != s.leader
  }

  ghost function ReconnectsFor(s0: State, steps: seq<Step>, s: State, g: nat): nat
    requires Run(s0, steps, s)
    decreases |steps|
  {
    if steps == [] then 0
    else
      (if Reconnects(s0, steps[0], g) then 1 else 0) + ReconnectsFor(Apply(s0, steps[0]), steps[1..], s, g)
  }

  ghost function FailuresOn(s0: State, steps: seq<Step>, s: State, g: nat): nat
    requires Run(s0, steps, s)
    decreases |steps|
  {
    if steps == [] then 0
    else
      (if FailsOn(s0, steps[0], g) then 1 else 0) + FailuresOn(Apply(s0, steps[0]), steps[1..], s, g)
  }

  lemma {:induction false} SessionsGetNewer(s0: State, steps: seq<Step>, s: State)
    requires Run(s0, steps, s)
    ensures s0.leader.gen <= s.leader.gen
    decreases |steps|
  {
    if steps != [] { SessionsGetNewer(Apply(s0, steps[0]), steps[1..], s); }
  }

  /**
   In every interleaving of callers that start, fail and end their attempts, a session
   is replaced by one reconnect of a caller that held it, or by none; and a session
   is replaced exactly if some caller failed on it.
   */
  lemma {:induction false} EachSessionReplacedOnce(s0: State, steps: seq<Step>, s: State, g: nat)
    requires Inv(s0) && Run(s0, steps, s)
    ensures ReconnectsFor(s0, steps, s, g) == if s0.leader.gen <= g < s.leader.gen then 1 else 0
    ensures s0.leader.gen <= g ==> (g < s.leader.gen <==> FailuresOn(s0, steps, s, g) > 0)
    decreases |steps|
  {
    if steps != [] {
      var s1 := Apply(s0, steps[0]);
      InvStep(s0, steps[0]);
      SessionsGetNewer(s1, steps[1..], s);
      EachSessionReplacedOnce(s1, steps[1..], s, g);
    }
  }

  /**
   A failure on an old session never replaces a newer one, even at a reused
   address; a failure on the current session always does; and in either case the
   caller's next attempt is on a session newer than the failed one.
   */
  lemma FailureReplacesOnlyTheFailedSession(s: State, c: Caller, outcome: Outcome, at: Address)
    requires Reachable(s) && Enabled(s, Finish(c, outcome, at)) && VerdictOf(outcome) == Retry
    ensures var s' := Apply(s, Finish(c, outcome, at));
            && (s.cached[c].gen < s.leader.gen ==> s' == s)
            && (s.cached[c].gen == s.leader.gen ==>
                  s'.leader == Session(at, s.leader.gen + 1) && s'.replaced == s.replaced + [s.leader])
            && s'.leader.gen > s.cached[c].gen
  {
    ReachableInv(s);
  }

  /** No caller starts another attempt. */
  predicate NoneStarts(steps: seq<Step>) {
    forall i :: 0 <= i < |steps| ==> !steps[i].Cache?
  }

  lemma {:induction false} StaleCallersChangeNothing(s0: State, steps: seq<Step>, s: State)
    requires Inv(s0) && Run(s0, steps, s) && NoneStarts(steps)
    requires forall c :: c in s0.cached ==> s0.cached[c].gen < s0.leader.gen
    ensures s.leader == s0.leader && s.replaced == s0.replaced && s.targets == s0.targets
    decreases |steps|
  {
    if steps != [] {
      InvStep(s0, steps[0]);
      StaleCallersChangeNothing(Apply(s0, steps[0]), steps[1..], s);
    }
  }

  /** Attempts under way end, in any order: one reconnect if one of them failed on the current session, else none. */
  lemma {:induction false} ConcurrentFailuresReconnectOnce(s0: State, steps: seq<Step>, s: State)
    requires Inv(s0) && Run(s0, steps, s) && NoneStarts(steps)
    ensures s.leader.gen == s0.leader.gen + if FailuresOn(s0, steps, s, s0.leader.gen) > 0 then 1 else 0
    decreases |steps|
  {
    if steps != [] {
      var s1 := Apply(s0, steps[0]);
      InvStep(s0, steps[0]);
      if FailsOn(s0, steps[0], s0.leader.gen) {
        StaleCallersChangeNothing(s1, steps[1..], s);
      } else {
        assert s1.leader == s0.leader;
        ConcurrentFailuresReconnectOnce(s1, steps[1..], s);
      }
    }
  }

  // ------------------------------------------------------- what outcomes lead to

  /** An RPC is retried if it failed or went to a server that is not the leader; other errors end the process. */
  lemma VerdictIs(outcome: Outcome)
    ensures VerdictOf(outcome) == Return <==> outcome.OK?
    ensures VerdictOf(outcome) == Retry <==> outcome.RpcFailed? || outcome.NotLeader?
    ensures VerdictOf(outcome) == Panic <==> outcome.SessionExpired? || outcome.UnknownError?
  {
  }

  /** The target a failure asks for: the hint of a server that knows the leader, or else any host. */
  predicate AsksFor(outcome: Outcome, target: Target) {
    match target
    case Hinted(host) => outcome == NotLeader(true, host)
    case AnyHost => outcome == RpcFailed || (outcome.NotLeader? && !outcome.hasHint)
  }

  /** The i-th step is the failure on session g that replaced it, and the new session went where it asked. */
  ghost predicate ReplacedBy(s0: State, steps: seq<Step>, i: nat, mid: State, g: nat, target: Target) {
    && i < |steps| && Run(s0, steps[..i], mid) && steps[i].Finish?
    && steps[i].c in mid.cached && mid.cached[steps[i].c].gen == g == mid.leader.gen
    && AsksFor(steps[i].outcome, target)
  }

  lemma {:induction false} TargetsStay(s0: State, steps: seq<Step>, s: State)
    requires Run(s0, steps, s)
    ensures s0.targets <= s.targets
    decreases |steps|
  {
    if steps != [] { TargetsStay(Apply(s0, steps[0]), steps[1..], s); }
  }

  /** Every session that was replaced was replaced by one opened where the first failure on it asked. */
  lemma {:induction false} TargetsAreHints(s0: State, steps: seq<Step>, s: State, g: nat) returns (i: nat, mid: State)
    requires Inv(s0) && Run(s0, steps, s) && s0.leader.gen <= g < s.leader.gen
    ensures g < |s.targets| && ReplacedBy(s0, steps, i, mid, g, s.targets[g])
    decreases |steps|
  {
    var s1 := Apply(s0, steps[0]);
    InvStep(s0, steps[0]);
    InvRun(s1, steps[1..], s);
    if s0.leader.gen == g && s1.leader.gen > g {
      TargetsStay(s1, steps[1..], s);
      i, mid := 0, s0;
      assert steps[..0] == [] && s1.targets[g] == TargetOf(steps[0].outcome);
    } else {
      i, mid := TargetsAreHints(s1, steps[1..], s, g);
      assert steps[..i + 1][1..] == steps[1..][..i];
      i := i + 1;
    }
  }

  // ------------------------------------------------------------------- LeaderRPC

  class LeaderRPC {
    var leaderSession: Address
    ghost var gen: nat
    ghost var cached: map<Caller, Session>
    ghost var replaced: seq<Session>
    var targets: seq<Target>

    ghost function View(): State
      reads this
    {
      State(Session(leaderSession, gen), cached, replaced, targets)
    }

    constructor (at: Address)
      ensures View() == Init(at)
    {
      leaderSession, gen, cached, replaced, targets := at, 0, map[], [], [];
    }

    method CacheSession(ghost c: Caller) returns (cachedSession: Address)
      requires Enabled(View(), Cache(c))
      modifies this
      ensures View() == Apply(old(View()), Cache(c))
      ensures cachedSession == cached[c].addr
    {
      cachedSession := leaderSession;
      cached := cached[c := Session(leaderSession, gen)];
    }

    method Connect(cachedSession: Address, target: Target, at: Address)
      modifies this
      ensures forall failed: Session :: failed.addr == cachedSession ==>
                View() == Reconnect(old(View()), failed, target, at)
    {
      if cachedSession == leaderSession {
        replaced := replaced + [Session(leaderSession, gen)];
        leaderSession, gen, targets := at, gen + 1, targets + [target];
      }
    }

    /** The switch on the RPC's status in call() and in handleServiceSpecificError(). */
    method Decode(ghost c: Caller, cachedSession: Address, outcome: Outcome, at: Address) returns (verdict: Verdict)
      requires Enabled(View(), Finish(c, outcome, at)) && cachedSession == cached[c].addr
      modifies this
      ensures View() == Apply(old(View()), Finish(c, outcome, at))
      ensures verdict == VerdictOf(outcome)
    {
      ghost var failed := cached[c];
      match outcome
      case OK => verdict := Return;
      case NotLeader(hasHint, hint) =>
        if hasHint {
          Connect(cachedSession, Hinted(hint), at);
        } else {
          Connect(cachedSession, AnyHost, at);
        }
        verdict := Retry;
      case SessionExpired => verdict := Panic;
      case UnknownError => verdict := Panic;
      case RpcFailed =>
        Connect(cachedSession, AnyHost, at);
        verdict := Retry;
    }
  }
}
