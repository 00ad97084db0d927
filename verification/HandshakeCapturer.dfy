/**
 Capture of WPA2 four-way handshakes from a stream of 802.11 frames: per pair of
 addresses the messages seen so far are kept, a repeat of the last message is
 skipped, a message out of order forgets them, and the fourth message completes
 a handshake.
 */
module HandshakeCapturer {

  type Byte = x: int | 0 <= x < 256

  datatype Option<T> = None | Some(value: T)

  datatype Eapol = Eapol(keyType: bool, ack: bool, mic: bool, install: bool, nonce: seq<Byte>, rest: seq<Byte>)

  datatype Data = Data(toDs: bool, fromDs: bool, addr1: int, addr2: int)

  /** A captured frame: its 802.11 data header and its EAPOL key message, where it has them. */
  datatype Frame = Frame(eapol: Option<Eapol>, data: Option<Data>)

  datatype Pair = Pair(first: int, second: int)

  datatype Handshake<T> = Handshake(pair: Pair, messages: seq<T>)

  // ------------------------------------------------------------- classifying a frame

  function Addresses(f: Frame): Option<Pair> {
    if f.eapol.None? || f.data.None? then None
    else if f.data.value.toDs then Some(Pair(f.data.value.addr1, f.data.value.addr2))
    else if f.data.value.fromDs then Some(Pair(f.data.value.addr2, f.data.value.addr1))
    else None
  }

  predicate HasNonce(e: Eapol) {
    exists i :: 0 <= i < |e.nonce| && e.nonce[i] > 0
  }

  /** Which of the four messages this is; 0 for none of them. */
  function Number(e: Eapol): (n: nat)
    ensures n <= 4
  {
    if e.keyType && e.ack && !e.mic && !e.install then 1
    else if e.keyType && e.mic && !e.install && !e.ack then (if HasNonce(e) then 2 else 4)
    else if e.keyType && e.install && e.ack && e.mic then 3
    else 0
  }

  /** The frame is message n between the two stations. */
  predicate Is(f: Frame, pair: Pair, n: nat) {
    Addresses(f) == Some(pair) && Number(f.eapol.value) == n
  }

  // ------------------------------------------------------------------- the capturer

  /** What is stored for a message does not influence the capturer: items are the messages, or their positions. */
  datatype State<T> = State(pending: map<Pair, seq<T>>, completed: seq<Handshake<T>>)

  /** do_insert */
  function Insert<T>(pending: map<Pair, seq<T>>, pair: Pair, item: T, expected: nat): map<Pair, seq<T>> {
    if pair !in pending then pending
    else if |pending[pair]| == expected then pending[pair := pending[pair] + [item]]
    else if |pending[pair]| == expected + 1 then pending
    else pending[pair := []]
  }

  /** process_packet */
  function Step<T>(s: State<T>, f: Frame, item: T): State<T> {
    if Addresses(f).None? then s
    else
      var pair, n := Addresses(f).value, Number(f.eapol.value);
      if n == 0 then s
      else if n == 1 then s.(pending := s.pending[pair := [item]])
      else
        var pending := Insert(s.pending, pair, item, n - 1);
        if n == 4 && pair in s.pending && |s.pending[pair]| == 3
        then State(pending - {pair}, s.completed + [Handshake(pair, pending[pair])])
        else s.(pending := pending)
  }

  class Capturer {
    var pending: map<Pair, seq<Eapol>>
    var completed: seq<Handshake<Eapol>>

    function View(): State<Eapol>
      reads this
    {
      State(pending, completed)
    }

    constructor ()
      ensures View() == State(map[], [])
    {
      pending, completed := map[], [];
    }

    method DoInsert(pair: Pair, e: Eapol, expected: nat) returns (added: bool)
      modifies this`pending
      ensures pending == Insert(old(pending), pair, e, expected)
      ensures added <==> pair in old(pending) && |old(pending)[pair]| == expected
    {
      added := false;
      if pair in pending {
        if |pending[pair]| != expected {
          if |pending[pair]| != expected + 1 {
            pending := pending[pair := []];
          }
        } else {
          pending := pending[pair := pending[pair] + [e]];
          added := true;
        }
      }
    }

    method ProcessPacket(f: Frame) returns (done: bool)
      modifies this
      ensures f.eapol.Some? ==> View() == Step(old(View()), f, f.eapol.value)
      ensures f.eapol.None? ==> View() == old(View())
      ensures done <==> |completed| == |old(completed)| + 1
    {
      if f.eapol.None? || f.data.None? { return false; }
      var e, d := f.eapol.value, f.data.value;
      var pair;
      if d.toDs {
        pair := Pair(d.addr1, d.addr2);
      } else if d.fromDs {
        pair := Pair(d.addr2, d.addr1);
      } else {
        return false;
      }
      done := false;
      if e.keyType && e.ack && !e.mic && !e.install {
        pending := pending[pair := [e]];
      } else if e.keyType && e.mic && !e.install && !e.ack {
        if HasNonce(e) {
          var _ := DoInsert(pair, e, 1);
        } else {
          var added := DoInsert(pair, e, 3);
          if added {
            completed := completed + [Handshake(pair, pending[pair])];
            pending := pending - {pair};
            return true;
          }
        }
      } else if e.keyType && e.install && e.ack && e.mic {
        var _ := DoInsert(pair, e, 2);
      }
    }
  }

  // ------------------------------------------------------------- runs over positions

  /** The capturer after a trace, storing the position of each message in it. */
  ghost function Positions(trace: seq<Frame>): State<nat> {
    if trace == [] then State(map[], [])
    else Step(Positions(trace[..|trace| - 1]), trace[|trace| - 1], |trace| - 1)
  }

  /** The capturer after a trace, storing the messages themselves. */
  ghost function Messages(trace: seq<Frame>): State<Eapol> {
    if trace == [] then State(map[], [])
    else
      var f := trace[|trace| - 1];
      if f.eapol.None? then Messages(trace[..|trace| - 1])
      else Step(Messages(trace[..|trace| - 1]), f, f.eapol.value)
  }

  /** The messages are those found in the trace at the positions. */
  ghost predicate Reads(trace: seq<Frame>, messages: seq<Eapol>, positions: seq<nat>) {
    && |messages| == |positions|
    && forall i :: 0 <= i < |positions| ==> positions[i] < |trace| && trace[positions[i]].eapol == Some(messages[i])
  }

  ghost predicate Image(trace: seq<Frame>, s: State<Eapol>, q: State<nat>) {
    && s.pending.Keys == q.pending.Keys
    && (forall pair :: pair in s.pending ==> Reads(trace, s.pending[pair], q.pending[pair]))
    && |s.completed| == |q.completed|
    && (forall i :: 0 <= i < |s.completed| ==>
          s.completed[i].pair == q.completed[i].pair && Reads(trace, s.completed[i].messages, q.completed[i].messages))
  }

  lemma {:induction false} MessagesArePositions(trace: seq<Frame>)
    ensures Image(trace, Messages(trace), Positions(trace))
  {
    if trace != [] {
      var front, f := trace[..|trace| - 1], trace[|trace| - 1];
      MessagesArePositions(front);
      assert trace == front + [f];
      if f.eapol.Some? {
        ImageStep(front, f, Messages(front), Positions(front));
      } else {
        ImageLonger(front, f, Messages(front), Positions(front));
      }
    }
  }

  lemma ImageLonger(front: seq<Frame>, f: Frame, s: State<Eapol>, q: State<nat>)
    requires Image(front, s, q)
    ensures Image(front + [f], s, q)
  {
  }

  lemma ImagePut(trace: seq<Frame>, s: State<Eapol>, q: State<nat>, pair: Pair, es: seq<Eapol>, ps: seq<nat>)
    requires Image(trace, s, q) && Reads(trace, es, ps)
    ensures Image(trace, s.(pending := s.pending[pair := es]), q.(pending := q.pending[pair := ps]))
  {
  }

  lemma ImageDone(trace: seq<Frame>, s: State<Eapol>, q: State<nat>, pair: Pair, es: seq<Eapol>, ps: seq<nat>)
    requires Image(trace, s, q) && Reads(trace, es, ps)
    ensures Image(trace, State(s.pending - {pair}, s.completed + [Handshake(pair, es)]),
                  State(q.pending - {pair}, q.completed + [Handshake(pair, ps)]))
  {
  }

  /** A message out of its place changes both alike. */
  lemma ImageInsert(trace: seq<Frame>, s: State<Eapol>, q: State<nat>, pair: Pair, e: Eapol, at: nat, expected: nat)
    requires Image(trace, s, q) && at < |trace| && trace[at].eapol == Some(e)
    ensures Image(trace, s.(pending := Insert(s.pending, pair, e, expected)),
                  q.(pending := Insert(q.pending, pair, at, expected)))
  {
    if pair in s.pending {
      assert Reads(trace, s.pending[pair], q.pending[pair]);
      if |s.pending[pair]| == expected {
        ImagePut(trace, s, q, pair, s.pending[pair] + [e], q.pending[pair] + [at]);
      } else if |s.pending[pair]| != expected + 1 {
        ImagePut(trace, s, q, pair, [], []);
      }
    }
  }

  lemma ImageStep(front: seq<Frame>, f: Frame, s: State<Eapol>, q: State<nat>)
    requires Image(front, s, q) && f.eapol.Some?
    ensures Image(front + [f], Step(s, f, f.eapol.value), Step(q, f, |front|))
  {
    var trace, e, at := front + [f], f.eapol.value, |front|;
    ImageLonger(front, f, s, q);
    if Addresses(f).Some? {
      var pair, n := Addresses(f).value, Number(e);
      if n == 1 {
        ImagePut(trace, s, q, pair, [e], [at]);
      } else if n == 4 && pair in s.pending && |s.pending[pair]| == 3 {
        assert Reads(trace, s.pending[pair], q.pending[pair]);
        ImageDone(trace, s, q, pair, s.pending[pair] + [e], q.pending[pair] + [at]);
        assert s.pending[pair := s.pending[pair] + [e]] - {pair} == s.pending - {pair};
        assert q.pending[pair := q.pending[pair] + [at]] - {pair} == q.pending - {pair};
      } else if n > 1 {
        ImageInsert(trace, s, q, pair, e, at, n - 1);
        if pair in s.pending { assert Reads(trace, s.pending[pair], q.pending[pair]); }
      }
    }
  }

  // ------------------------------------------ what a handshake is, without the machine

  /**
   The positions are messages 1, 2, ... of the pair, in order; after message 1 and
   before the end, any other message of the pair repeats the one before it, and
   message 1 itself is not repeated.
   */
  ghost predicate Follows(trace: seq<Frame>, pair: Pair, ps: seq<nat>, end: nat) {
    && 1 <= |ps| <= 3 && end <= |trace|
    && (forall i :: 0 <= i < |ps| ==> ps[i] < end && Is(trace[ps[i]], pair, i + 1))
    && (forall i, j :: 0 <= i < j < |ps| ==> ps[i] < ps[j])
    && (forall x :: ps[0] < x < end && x !in ps ==> OnlyRepeats(trace, pair, ps, x))
  }

  /** The frame at x is irrelevant to the pair, or a repeat of message 2 or 3 right after it was seen. */
  ghost predicate OnlyRepeats(trace: seq<Frame>, pair: Pair, ps: seq<nat>, x: nat) {
    x < |trace| ==>
      || Irrelevant(trace[x], pair)
      || (|ps| >= 2 && Is(trace[x], pair, 2) && ps[1] < x && (|ps| >= 3 ==> x < ps[2]))
      || (|ps| >= 3 && Is(trace[x], pair, 3) && ps[2] < x)
  }

  predicate Irrelevant(f: Frame, pair: Pair) {
    Addresses(f) != Some(pair) || Number(f.eapol.value) == 0
  }

  /** A whole handshake: message 4 ends a run of messages 1, 2 and 3. */
  ghost predicate Complete(trace: seq<Frame>, pair: Pair, ps: seq<nat>) {
    |ps| == 4 && ps[3] < |trace| && Is(trace[ps[3]], pair, 4) && Follows(trace, pair, ps[..3], ps[3])
  }

  // --------------------------------------------- pending messages are exactly the runs

  /** What is pending for the pair is nothing, or a run up to the end of the trace. */
  ghost predicate PendingOk(trace: seq<Frame>, pair: Pair) {
    var pending := Positions(trace).pending;
    pair in pending && pending[pair] != [] ==> Follows(trace, pair, pending[pair], |trace|)
  }

  lemma FollowsLonger(trace: seq<Frame>, f: Frame, pair: Pair, ps: seq<nat>)
    requires Follows(trace, pair, ps, |trace|)
    requires Irrelevant(f, pair) || (|ps| >= 2 && Is(f, pair, |ps|))
    ensures Follows(trace + [f], pair, ps, |trace| + 1)
  {
    var longer := trace + [f];
    forall x | ps[0] < x < |trace| + 1 && x !in ps ensures OnlyRepeats(longer, pair, ps, x) {
      if x < |trace| {
        assert OnlyRepeats(trace, pair, ps, x);
        assert longer[x] == trace[x];
      } else {
        assert ps[|ps| - 1] < x;
      }
    }
  }

  lemma FollowsNext(trace: seq<Frame>, f: Frame, pair: Pair, ps: seq<nat>)
    requires Follows(trace, pair, ps, |trace|) && |ps| <= 2 && Is(f, pair, |ps| + 1)
    ensures Follows(trace + [f], pair, ps + [|trace|], |trace| + 1)
  {
    var longer, qs := trace + [f], ps + [|trace|];
    forall x | qs[0] < x < |trace| + 1 && x !in qs ensures OnlyRepeats(longer, pair, qs, x) {
      assert x != |trace| by { assert qs[|ps|] == |trace|; }
      assert x !in ps;
      assert OnlyRepeats(trace, pair, ps, x);
      assert longer[x] == trace[x];
    }
  }

  lemma FollowsStart(trace: seq<Frame>, f: Frame, pair: Pair)
    requires Is(f, pair, 1)
    ensures Follows(trace + [f], pair, [|trace|], |trace| + 1)
  {
  }

  lemma {:induction false} PendingFollows(trace: seq<Frame>, pair: Pair)
    ensures PendingOk(trace, pair)
  {
    if trace != [] {
      var front, f := trace[..|trace| - 1], trace[|trace| - 1];
      assert trace == front + [f];
      PendingFollows(front, pair);
      var before, after := Positions(front).pending, Positions(trace).pending;
      if pair in after && after[pair] != [] {
        if Is(f, pair, 1) {
          FollowsStart(front, f, pair);
        } else if before[pair] == after[pair] {
          FollowsLonger(front, f, pair, before[pair]);
        } else {
          FollowsNext(front, f, pair, before[pair]);
        }
      }
    }
  }

  lemma FollowsShorter(front: seq<Frame>, f: Frame, pair: Pair, ps: seq<nat>, qs: seq<nat>)
    requires Follows(front + [f], pair, ps, |front| + 1)
    requires qs == if ps[|ps| - 1] == |front| then ps[..|ps| - 1] else ps
    requires qs != []
    ensures Follows(front, pair, qs, |front|)
  {
    var trace := front + [f];
    forall i | 0 <= i < |qs| ensures qs[i] < |front| && Is(front[qs[i]], pair, i + 1) {
      assert qs[i] == ps[i] <= ps[|ps| - 1];
      assert Is(trace[ps[i]], pair, i + 1);
    }
    forall x | qs[0] < x < |front| && x !in qs ensures OnlyRepeats(front, pair, qs, x) {
      assert x !in ps;
      assert OnlyRepeats(trace, pair, ps, x) && trace[x] == front[x];
    }
  }

  /** A step on the pending messages of one pair. */
  lemma PendingNext(front: seq<Frame>, f: Frame, pair: Pair, ps: seq<nat>)
    requires pair in Positions(front).pending && Positions(front).pending[pair] == ps
    requires 1 <= |ps| <= 2 && Is(f, pair, |ps| + 1)
    ensures pair in Positions(front + [f]).pending && Positions(front + [f]).pending[pair] == ps + [|front|]
  {
    assert (front + [f])[..|front|] == front && (front + [f])[|front|] == f;
  }

  lemma PendingStays(front: seq<Frame>, f: Frame, pair: Pair, ps: seq<nat>)
    requires pair in Positions(front).pending && Positions(front).pending[pair] == ps
    requires Irrelevant(f, pair) || (2 <= |ps| <= 3 && Is(f, pair, |ps|))
    ensures pair in Positions(front + [f]).pending && Positions(front + [f]).pending[pair] == ps
  {
    assert (front + [f])[..|front|] == front && (front + [f])[|front|] == f;
  }

  lemma PendingStarts(front: seq<Frame>, f: Frame, pair: Pair)
    requires Is(f, pair, 1)
    ensures pair in Positions(front + [f]).pending && Positions(front + [f]).pending[pair] == [|front|]
  {
    assert (front + [f])[..|front|] == front && (front + [f])[|front|] == f;
  }

  lemma LastIsRepeat(front: seq<Frame>, f: Frame, pair: Pair, ps: seq<nat>)
    requires Follows(front + [f], pair, ps, |front| + 1) && ps[|ps| - 1] != |front|
    ensures Irrelevant(f, pair) || (2 <= |ps| && Is(f, pair, |ps|))
  {
    assert |front| !in ps;
    assert OnlyRepeats(front + [f], pair, ps, |front|);
  }

  /** Every run up to the end of the trace is pending. */
  lemma {:induction false} RunIsPending(trace: seq<Frame>, pair: Pair, ps: seq<nat>)
    requires Follows(trace, pair, ps, |trace|)
    ensures pair in Positions(trace).pending && Positions(trace).pending[pair] == ps
    decreases |trace|
  {
    assert ps[0] < |trace|;
    var front, f := trace[..|trace| - 1], trace[|trace| - 1];
    assert trace == front + [f];
    var last := |ps| - 1;
    if ps[last] != |front| {
      LastIsRepeat(front, f, pair, ps);
      FollowsShorter(front, f, pair, ps, ps);
      RunIsPending(front, pair, ps);
      PendingStays(front, f, pair, ps);
    } else if last == 0 {
      assert ps == [|front|];
      PendingStarts(front, f, pair);
    } else {
      FollowsShorter(front, f, pair, ps, ps[..last]);
      RunIsPending(front, pair, ps[..last]);
      assert Is(trace[ps[last]], pair, last + 1);
      PendingNext(front, f, pair, ps[..last]);
      assert ps == ps[..last] + [|front|];
    }
  }

  // -------------------------------------------------------------------- main results

  lemma FollowsPrefix(trace: seq<Frame>, more: seq<Frame>, pair: Pair, ps: seq<nat>, end: nat)
    requires end <= |trace|
    ensures Follows(trace, pair, ps, end) <==> Follows(trace + more, pair, ps, end)
  {
    var longer := trace + more;
    assert forall x :: 0 <= x < |trace| ==> longer[x] == trace[x];
    if Follows(trace, pair, ps, end) {
      forall x | ps[0] < x < end && x !in ps ensures OnlyRepeats(longer, pair, ps, x) {
        assert OnlyRepeats(trace, pair, ps, x);
      }
    }
    if Follows(longer, pair, ps, end) {
      forall i | 0 <= i < |ps| ensures Is(trace[ps[i]], pair, i + 1) { assert Is(longer[ps[i]], pair, i + 1); }
      forall x | ps[0] < x < end && x !in ps ensures OnlyRepeats(trace, pair, ps, x) {
        assert OnlyRepeats(longer, pair, ps, x);
      }
    }
  }

  lemma CompletePrefix(trace: seq<Frame>, f: Frame, pair: Pair, ps: seq<nat>)
    requires |ps| == 4 && ps[3] < |trace|
    ensures Complete(trace, pair, ps) <==> Complete(trace + [f], pair, ps)
  {
    FollowsPrefix(trace, [f], pair, ps[..3], ps[3]);
  }

  /** The next frame completes a handshake exactly when it is message 4 after a run of messages 1, 2 and 3. */
  lemma CompletesNow(front: seq<Frame>, f: Frame, pair: Pair, ps: seq<nat>)
    requires |ps| == 4 && ps[3] == |front|
    ensures Complete(front + [f], pair, ps)
       <==> (Positions(front + [f]).completed == Positions(front).completed + [Handshake(pair, ps)])
  {
    var trace := front + [f];
    assert trace[..|front|] == front && trace[|front|] == f;
    FollowsPrefix(front, [f], pair, ps[..3], |front|);
    assert ps == ps[..3] + [|front|];
    var before := Positions(front);
    if Complete(trace, pair, ps) {
      RunIsPending(front, pair, ps[..3]);
    } else if Positions(trace).completed == before.completed + [Handshake(pair, ps)] {
      var done := Positions(trace).completed;
      assert done[|done| - 1] == Handshake(pair, ps);
      PendingFollows(front, pair);
    }
  }

  ghost predicate Found(trace: seq<Frame>, pair: Pair, ps: seq<nat>) {
    Handshake(pair, ps) in Positions(trace).completed
  }

  lemma CompletedLast(front: seq<Frame>, f: Frame)
    ensures Grown(Positions(front).completed, Positions(front + [f]).completed, |front|)
  {
    var trace := front + [f];
    assert trace[..|front|] == front && trace[|front|] == f;
    StepGrows(Positions(front), f, |front|);
  }

  /** Nothing new, or one handshake of four messages that ends with the item. */
  predicate Grown<T(==)>(was: seq<Handshake<T>>, now: seq<Handshake<T>>, item: T) {
    now == was || (
      && |now| == |was| + 1 && now[..|was|] == was
      && |now[|was|].messages| == 4 && now[|was|].messages[3] == item)
  }

  lemma StepGrows<T>(s: State<T>, f: Frame, item: T)
    ensures Grown(s.completed, Step(s, f, item).completed, item)
  {
    var now := Step(s, f, item).completed;
    if now != s.completed { assert now[..|s.completed|] == s.completed; }
  }

  /** A message captured is one already seen. */
  lemma {:induction false} FoundIsPast(trace: seq<Frame>, pair: Pair, ps: seq<nat>)
    requires Found(trace, pair, ps)
    ensures |ps| == 4 && ps[3] < |trace|
  {
    if trace != [] {
      var front, f := trace[..|trace| - 1], trace[|trace| - 1];
      assert trace == front + [f];
      CompletedLast(front, f);
      if Found(front, pair, ps) { FoundIsPast(front, pair, ps); }
    }
  }

  /** The capturer reports exactly the handshakes there are in the trace. */
  lemma {:induction false} CapturesExactly(trace: seq<Frame>, pair: Pair, ps: seq<nat>)
    ensures Found(trace, pair, ps) <==> Complete(trace, pair, ps)
  {
    if trace != [] {
      var front, f := trace[..|trace| - 1], trace[|trace| - 1];
      assert trace == front + [f];
      CompletedLast(front, f);
      if Found(trace, pair, ps) { FoundIsPast(trace, pair, ps); }
      if |ps| == 4 && ps[3] < |front| {
        CapturesExactly(front, pair, ps);
        CompletePrefix(front, f, pair, ps);
      } else if |ps| == 4 && ps[3] == |front| {
        CompletesNow(front, f, pair, ps);
        if Found(front, pair, ps) { FoundIsPast(front, pair, ps); }
      }
    }
  }

  // ------------------------------------------------- the exchange, from the frames' bits

  /** The frame goes to or comes from the distribution system, between an access point and a station. */
  predicate Between(f: Frame, ap: int, station: int) {
    && f.eapol.Some? && f.data.Some?
    && var d := f.data.value;
       || (d.toDs && d.addr1 == ap && d.addr2 == station)
       || (!d.toDs && d.fromDs && d.addr1 == station && d.addr2 == ap)
  }

  /** The key information of the four messages in section 11.6.6 of IEEE 802.11-2012. */
  predicate IsMessage1(e: Eapol) { e.keyType && e.ack && !e.mic && !e.install }

  predicate IsMessage2(e: Eapol) { e.keyType && !e.ack && e.mic && !e.install && !AllZero(e.nonce) }

  predicate IsMessage3(e: Eapol) { e.keyType && e.ack && e.mic && e.install }

  predicate IsMessage4(e: Eapol) { e.keyType && !e.ack && e.mic && !e.install && AllZero(e.nonce) }

  predicate AllZero(nonce: seq<Byte>) { forall i :: 0 <= i < |nonce| ==> nonce[i] == 0 }

  /** A frame is message n of a pair exactly by its direction, its addresses and its key information. */
  lemma MessageIff(f: Frame, ap: int, station: int)
    ensures Is(f, Pair(ap, station), 1) <==> Between(f, ap, station) && IsMessage1(f.eapol.value)
    ensures Is(f, Pair(ap, station), 2) <==> Between(f, ap, station) && IsMessage2(f.eapol.value)
    ensures Is(f, Pair(ap, station), 3) <==> Between(f, ap, station) && IsMessage3(f.eapol.value)
    ensures Is(f, Pair(ap, station), 4) <==> Between(f, ap, station) && IsMessage4(f.eapol.value)
  {
    if f.eapol.Some? { assert HasNonce(f.eapol.value) <==> !AllZero(f.eapol.value.nonce); }
  }

  /** The frames at four increasing positions are the four messages. */
  ghost predicate FourMessages(trace: seq<Frame>, ap: int, station: int, ps: seq<nat>) {
    && |ps| == 4 && ps[0] < ps[1] < ps[2] < ps[3] < |trace|
    && (forall i :: 0 <= i < 4 ==> Between(trace[ps[i]], ap, station))
    && IsMessage1(trace[ps[0]].eapol.value) && IsMessage2(trace[ps[1]].eapol.value)
    && IsMessage3(trace[ps[2]].eapol.value) && IsMessage4(trace[ps[3]].eapol.value)
  }

  /** Whatever is captured is the four messages, in order, between one access point and one station. */
  lemma CapturedIsExchange(trace: seq<Frame>, ap: int, station: int, ps: seq<nat>)
    requires Found(trace, Pair(ap, station), ps)
    ensures FourMessages(trace, ap, station, ps)
  {
    CapturesExactly(trace, Pair(ap, station), ps);
    var run := ps[..3];
    forall i | 0 <= i < 3 ensures Is(trace[ps[i]], Pair(ap, station), i + 1) && ps[i] < ps[3] {
      assert ps[i] == run[i] && Is(trace[run[i]], Pair(ap, station), i + 1);
    }
    assert run[0] < run[1] < run[2];
    forall i | 0 <= i < 4 ensures Between(trace[ps[i]], ap, station) { MessageIff(trace[ps[i]], ap, station); }
    MessageIff(trace[ps[0]], ap, station);
    MessageIff(trace[ps[1]], ap, station);
    MessageIff(trace[ps[2]], ap, station);
    MessageIff(trace[ps[3]], ap, station);
  }

  /** The four messages are captured if no other key frame of the two stations comes between. */
  lemma ExchangeIsCaptured(trace: seq<Frame>, ap: int, station: int, ps: seq<nat>)
    requires FourMessages(trace, ap, station, ps)
    requires forall x :: ps[0] < x < ps[3] && x !in ps ==> !Between(trace[x], ap, station)
    ensures Found(trace, Pair(ap, station), ps)
  {
    var pair, run := Pair(ap, station), ps[..3];
    forall i | 0 <= i < 4 ensures Is(trace[ps[i]], pair, i + 1) { MessageIff(trace[ps[i]], ap, station); }
    forall x | run[0] < x < ps[3] && x !in run ensures OnlyRepeats(trace, pair, run, x) {
      assert x !in ps;
      assert Addresses(trace[x]) != Some(pair);
    }
    CapturesExactly(trace, pair, ps);
  }

  /** No frame is part of two handshakes. */
  lemma HandshakesAreDisjoint(trace: seq<Frame>, p: Pair, ps: seq<nat>, q: Pair, qs: seq<nat>, x: nat)
    requires Found(trace, p, ps) && Found(trace, q, qs) && x in ps && x in qs
    ensures p == q && ps == qs
  {
    CapturesExactly(trace, p, ps);
    CapturesExactly(trace, q, qs);
    MemberIs(trace, p, ps, x);
    MemberIs(trace, q, qs, x);
    if ps[3] < qs[3] {
      Separate(trace, p, ps, qs);
    } else if qs[3] < ps[3] {
      Separate(trace, p, qs, ps);
    } else {
      SameEnd(trace, p, ps, qs);
    }
  }

  /** The list is in the order in which the handshakes ended. */
  lemma {:induction false} ReportedInOrder(trace: seq<Frame>, i: nat, j: nat)
    requires i < j < |Positions(trace).completed|
    ensures var completed := Positions(trace).completed;
            && |completed[i].messages| == |completed[j].messages| == 4
            && completed[i].messages[3] < completed[j].messages[3]
    decreases |trace|
  {
    var front, f := trace[..|trace| - 1], trace[|trace| - 1];
    var before := Positions(front).completed;
    assert trace == front + [f];
    CompletedLast(front, f);
    if j < |before| {
      ReportedInOrder(front, i, j);
    } else {
      FoundIsPast(front, before[i].pair, before[i].messages);
    }
  }

  /** No two entries of the list share a frame; in particular no handshake is listed twice. */
  lemma EntriesAreDisjoint(trace: seq<Frame>, i: nat, j: nat, x: nat)
    requires i < j < |Positions(trace).completed|
    ensures x !in Positions(trace).completed[i].messages || x !in Positions(trace).completed[j].messages
  {
    var h, k := Positions(trace).completed[i], Positions(trace).completed[j];
    ReportedInOrder(trace, i, j);
    if x in h.messages && x in k.messages {
      HandshakesAreDisjoint(trace, h.pair, h.messages, k.pair, k.messages, x);
    }
  }

  lemma MemberIs(trace: seq<Frame>, pair: Pair, ps: seq<nat>, x: nat)
    requires Complete(trace, pair, ps) && x in ps
    ensures x < |trace| && Addresses(trace[x]) == Some(pair) && ps[0] <= x <= ps[3]
  {
    var i :| 0 <= i < |ps| && ps[i] == x;
    if i < 3 { assert ps[..3][i] == x && ps[..3][0] == ps[0]; }
    else { assert ps[..3][0] < ps[3]; }
  }

  /** A handshake that ends later starts after the earlier one ended. */
  lemma Separate(trace: seq<Frame>, pair: Pair, ps: seq<nat>, qs: seq<nat>)
    requires Complete(trace, pair, ps) && Complete(trace, pair, qs) && ps[3] < qs[3]
    ensures ps[3] < qs[0]
  {
    var run := qs[..3];
    assert Is(trace[run[0]], pair, 1) && Is(trace[run[1]], pair, 2) && Is(trace[run[2]], pair, 3);
    assert !OnlyRepeats(trace, pair, run, ps[3]);
  }

  lemma SameEnd(trace: seq<Frame>, pair: Pair, ps: seq<nat>, qs: seq<nat>)
    requires Complete(trace, pair, ps) && Complete(trace, pair, qs) && ps[3] == qs[3]
    ensures ps == qs
  {
    var front := trace[..ps[3]];
    assert trace == front + trace[ps[3]..];
    FollowsPrefix(front, trace[ps[3]..], pair, ps[..3], ps[3]);
    FollowsPrefix(front, trace[ps[3]..], pair, qs[..3], ps[3]);
    RunIsPending(front, pair, ps[..3]);
    RunIsPending(front, pair, qs[..3]);
    assert ps == ps[..3] + [ps[3]] && qs == qs[..3] + [qs[3]];
  }
}
