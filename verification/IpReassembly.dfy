/**
 Reassembly of fragmented IPv4 packets: fragments are kept in offset order,
 duplicates by offset are ignored, and a packet is complete when the bytes held
 add up to the end of the last fragment.
 */
module IpReassembly {

  type Byte = x: int | 0 <= x < 256
  type Bytes = seq<Byte>
  type Word = x: int | 0 <= x < 0x1_0000

  datatype Option<T> = None | Some(value: T)

  datatype Fragment = Fragment(offset: Word, payload: Bytes)

  datatype Address = Address(value: int)

  /** The parts of an IP packet that reassembly looks at. */
  datatype Packet = Packet(id: Word, src: Address, dst: Address, fragOff: Word, protocol: int, payload: Bytes) {
    function Offset(): Word { (fragOff % 0x2000) * 8 }
    predicate MoreFragments() { fragOff / 0x2000 % 2 == 1 }
    predicate IsFragmented() { fragOff != 0 && fragOff != 0x4000 }
  }

  // ------------------------------------------------------------------- one stream

  datatype Stream = Stream(
    fragments: seq<Fragment>, receivedEnd: bool, protocol: int, receivedSize: nat, totalSize: nat)
  {
    predicate IsComplete() { receivedEnd && receivedSize == totalSize }
  }

  const EmptyStream := Stream([], false, 0, 0, 0)

  /** The first position whose fragment does not start before the offset. */
  function Position(fragments: seq<Fragment>, offset: int): (p: nat)
    ensures p <= |fragments|
  {
    if fragments == [] || offset <= fragments[0].offset then 0 else 1 + Position(fragments[1..], offset)
  }

  lemma {:induction false} PositionSplits(fragments: seq<Fragment>, offset: int, a: nat)
    requires a < |fragments|
    ensures a < Position(fragments, offset) ==> fragments[a].offset < offset
    ensures a == Position(fragments, offset) ==> offset <= fragments[a].offset
  {
    if a > 0 && offset > fragments[0].offset { PositionSplits(fragments[1..], offset, a - 1); }
  }

  function AddAt(s: Stream, f: Fragment, more: bool, protocol: int): Stream {
    var p := Position(s.fragments, f.offset);
    if p < |s.fragments| && s.fragments[p].offset == f.offset then s
    else
      Stream(s.fragments[..p] + [f] + s.fragments[p..],
             s.receivedEnd || !more,
             if f.offset == 0 then protocol else s.protocol,
             s.receivedSize + |f.payload|,
             if more then s.totalSize else f.offset + |f.payload|)
  }

  /** IPv4Stream::add_fragment */
  function Add(s: Stream, ip: Packet): Stream {
    AddAt(s, Fragment(ip.Offset(), ip.payload), ip.MoreFragments(), ip.protocol)
  }

  /** The concatenation of the fragments if each starts where the one before ends, in 16-bit arithmetic. */
  function Rebuilt(fragments: seq<Fragment>, expected: Word): Option<Bytes> {
    if fragments == [] then Some([])
    else if expected != fragments[0].offset then None
    else
      Prepend(fragments[0].payload, Rebuilt(fragments[1..], (fragments[0].offset + |fragments[0].payload|) % 0x1_0000))
  }

  function Prepend(front: Bytes, rest: Option<Bytes>): Option<Bytes> {
    if rest.None? then None else Some(front + rest.value)
  }

  lemma PrependTwice(a: Bytes, b: Bytes, rest: Option<Bytes>)
    ensures Prepend(a, Prepend(b, rest)) == Prepend(a + b, rest)
  {
    if rest.Some? { assert a + (b + rest.value) == a + b + rest.value; }
  }

  lemma PrependNothing(rest: Option<Bytes>)
    ensures Prepend([], rest) == rest
  {
    if rest.Some? { assert [] + rest.value == rest.value; }
  }

  method FindPosition(fragments: seq<Fragment>, offset: int) returns (it: nat)
    ensures it == Position(fragments, offset)
  {
    it := 0;
    while it < |fragments| && offset > fragments[it].offset
      invariant it <= |fragments|
      invariant Position(fragments, offset) == it + Position(fragments[it..], offset)
    {
      assert fragments[it..][1..] == fragments[it + 1..];
      it := it + 1;
    }
  }

  method AddFragment(s: Stream, ip: Packet) returns (s': Stream)
    ensures s' == Add(s, ip)
  {
    var offset := ip.Offset();
    s' := s;
    var it := FindPosition(s.fragments, offset);
    if it < |s.fragments| && s.fragments[it].offset == offset {
      return;
    }
    s' := s'.(fragments := s.fragments[..it] + [Fragment(offset, ip.payload)] + s.fragments[it..]);
    s' := s'.(receivedSize := s'.receivedSize + |ip.payload|);
    if !ip.MoreFragments() {
      s' := s'.(totalSize := offset + |ip.payload|, receivedEnd := true);
    }
    if offset == 0 {
      s' := s'.(protocol := ip.protocol);
    }
  }

  method AllocatePdu(s: Stream) returns (r: Option<Bytes>)
    ensures r == Rebuilt(s.fragments, 0)
  {
    var buffer: Bytes := [];
    var expected: Word := 0;
    assert s.fragments[0..] == s.fragments;
    PrependNothing(Rebuilt(s.fragments, 0));
    for i := 0 to |s.fragments|
      invariant Rebuilt(s.fragments, 0) == Prepend(buffer, Rebuilt(s.fragments[i..], expected))
    {
      var f := s.fragments[i];
      assert s.fragments[i..][0] == f && s.fragments[i..][1..] == s.fragments[i + 1..];
      if expected != f.offset { return None; }
      expected := (f.offset + |f.payload|) % 0x1_0000;
      PrependTwice(buffer, f.payload, Rebuilt(s.fragments[i + 1..], expected));
      buffer := buffer + f.payload;
    }
    assert s.fragments[|s.fragments|..] == [] && buffer + [] == buffer;
    r := Some(buffer);
  }

  // ------------------------------------------------------ a packet cut into fragments

  /** A payload and the positions where it is cut, from its beginning to its end. */
  datatype Tiling = Tiling(payload: Bytes, cuts: seq<nat>, id: Word, src: Address, dst: Address, protocol: int) {
    function Pieces(): int { |cuts| - 1 }

    /** Fragments are not empty, all but the last a multiple of eight bytes long, as section 3.2 of RFC 791 asks. */
    predicate Valid() {
      && |cuts| >= 2 && cuts[0] == 0 && cuts[|cuts| - 1] == |payload| <= 65535
      && (forall j, k :: 0 <= j < k < |cuts| ==> cuts[j] < cuts[k])
      && (forall j :: 0 <= j < |cuts| - 1 ==> cuts[j] % 8 == 0)
    }

    /** The j-th fragment as a packet. */
    function Piece(j: nat): (p: Packet)
      requires Valid() && j < Pieces()
      ensures p.Offset() == cuts[j] && (p.MoreFragments() <==> j + 1 < Pieces())
    {
      assert cuts[j] < cuts[|cuts| - 1] && cuts[j] / 8 < 0x2000;
      var more := if j + 1 < Pieces() then 0x2000 else 0;
      Packet(id, src, dst, cuts[j] / 8 + more, protocol, payload[cuts[j]..cuts[j + 1]])
    }

    function Size(j: nat): nat
      requires Valid() && j < Pieces()
    {
      cuts[j + 1] - cuts[j]
    }

    function PieceFragment(j: nat): Fragment
      requires Valid() && j < Pieces()
    {
      assert cuts[j + 1] <= cuts[|cuts| - 1];
      Fragment(cuts[j], payload[cuts[j]..cuts[j + 1]])
    }
  }

  // ------------------------------------------- what a stream holds of a cut packet

  predicate Increasing(held: seq<nat>) {
    forall a, b :: 0 <= a < b < |held| ==> held[a] < held[b]
  }

  predicate Within(held: seq<nat>, hi: int) {
    forall a :: 0 <= a < |held| ==> held[a] < hi
  }

  /** The fragments with the given numbers, in that order. */
  ghost function FragmentsOf(t: Tiling, held: seq<nat>): (r: seq<Fragment>)
    requires t.Valid() && Within(held, t.Pieces())
    ensures |r| == |held|
  {
    if held == [] then [] else FragmentsOf(t, held[..|held| - 1]) + [t.PieceFragment(held[|held| - 1])]
  }

  lemma {:induction false} FragmentAt(t: Tiling, held: seq<nat>, a: nat)
    requires t.Valid() && Within(held, t.Pieces()) && a < |held|
    ensures FragmentsOf(t, held)[a] == t.PieceFragment(held[a])
    decreases |held|
  {
    if a < |held| - 1 { FragmentAt(t, held[..|held| - 1], a); }
  }

  /** The bytes in the fragments with the given numbers. */
  ghost function BytesIn(t: Tiling, held: seq<nat>): nat
    requires t.Valid() && Within(held, t.Pieces())
  {
    if held == [] then 0 else
      BytesIn(t, held[..|held| - 1]) + t.Size(held[|held| - 1])
  }

  /** The stream holds exactly the fragments numbered held. */
  ghost predicate Holds(t: Tiling, held: seq<nat>, s: Stream) {
    && t.Valid() && Increasing(held) && Within(held, t.Pieces())
    && s.fragments == FragmentsOf(t, held)
    && s.receivedSize == BytesIn(t, held)
    && (s.receivedEnd <==> t.Pieces() - 1 in held)
    && (s.receivedEnd ==> s.totalSize == |t.payload|)
    && (0 in held ==> s.protocol == t.protocol)
  }

  /** Increasing numbers below hi account for at most the bytes before cut hi, for all only if none is missing. */
  lemma {:induction false} BytesBound(t: Tiling, held: seq<nat>, hi: nat)
    requires t.Valid() && Increasing(held) && hi < |t.cuts|
    requires Within(held, hi)
    ensures BytesIn(t, held) <= t.cuts[hi]
    ensures BytesIn(t, held) == t.cuts[hi] <==> |held| == hi
    ensures |held| <= hi
    decreases |held|
  {
    if held == [] {
    } else {
      var j := held[|held| - 1];
      BytesBound(t, held[..|held| - 1], j);
    }
  }

  lemma {:induction false} FullIsAll(held: seq<nat>, hi: nat)
    requires Increasing(held) && |held| == hi && Within(held, hi)
    ensures forall a :: 0 <= a < hi ==> held[a] == a
    decreases hi
  {
    if hi > 0 {
      var front := held[..hi - 1];
      forall a | 0 <= a < |front| ensures front[a] < hi - 1 { assert held[a] < held[hi - 1]; }
      FullIsAll(front, hi - 1);
      if hi > 1 { assert held[hi - 2] == front[hi - 2]; }
    }
  }

  /** The stream is complete exactly when no fragment is missing. */
  lemma CompleteIffAll(t: Tiling, held: seq<nat>, s: Stream)
    requires Holds(t, held, s)
    ensures s.IsComplete() <==> forall j :: 0 <= j < t.Pieces() ==> j in held
  {
    BytesBound(t, held, t.Pieces());
    if s.IsComplete() {
      FullIsAll(held, t.Pieces());
      forall j | 0 <= j < t.Pieces() ensures j in held { assert held[j] == j; }
    }
    if forall j :: 0 <= j < t.Pieces() ==> j in held {
      AllAreHeld(held, t.Pieces());
    }
  }

  lemma {:induction false} AllAreHeld(held: seq<nat>, n: nat)
    requires Increasing(held) && forall j :: 0 <= j < n ==> j in held
    ensures |held| >= n
  {
    if n > 0 {
      assert n - 1 in held;
      var a :| 0 <= a < |held| && held[a] == n - 1;
      var front := held[..a];
      forall j | 0 <= j < n - 1 ensures j in front {
        assert j in held;
        var b :| 0 <= b < |held| && held[b] == j;
        assert b < a;
        assert front[b] == j;
      }
      AllAreHeld(front, n - 1);
    }
  }

  function Inserted<T>(items: seq<T>, p: nat, x: T): (r: seq<T>)
    requires p <= |items|
    ensures |r| == |items| + 1
  {
    items[..p] + [x] + items[p..]
  }

  lemma InsertedBeforeLast<T>(items: seq<T>, p: nat, x: T)
    requires p < |items|
    ensures Inserted(items, p, x) == Inserted(items[..|items| - 1], p, x) + [items[|items| - 1]]
  {
  }

  lemma {:induction false} BytesInsert(t: Tiling, held: seq<nat>, p: nat, j: nat)
    requires t.Valid() && p <= |held| && j < t.Pieces() && Within(held, t.Pieces())
    requires Within(Inserted(held, p, j), t.Pieces())
    ensures BytesIn(t, Inserted(held, p, j)) == BytesIn(t, held) + t.Size(j)
    decreases |held|
  {
    var longer := Inserted(held, p, j);
    if p == |held| {
      assert longer[..|longer| - 1] == held;
    } else {
      var front := held[..|held| - 1];
      InsertedBeforeLast(held, p, j);
      assert longer[..|longer| - 1] == Inserted(front, p, j);
      BytesInsert(t, front, p, j);
    }
  }

  lemma {:induction false} FragmentsInsert(t: Tiling, held: seq<nat>, p: nat, j: nat)
    requires t.Valid() && p <= |held| && j < t.Pieces() && Within(held, t.Pieces())
    requires Within(Inserted(held, p, j), t.Pieces())
    ensures FragmentsOf(t, Inserted(held, p, j)) == Inserted(FragmentsOf(t, held), p, t.PieceFragment(j))
    decreases |held|
  {
    var longer := Inserted(held, p, j);
    if p == |held| {
      assert longer[..|longer| - 1] == held;
    } else {
      var front := held[..|held| - 1];
      InsertedBeforeLast(held, p, j);
      assert longer[..|longer| - 1] == Inserted(front, p, j);
      FragmentsInsert(t, front, p, j);
      InsertedBeforeLast(FragmentsOf(t, held), p, t.PieceFragment(j));
      assert FragmentsOf(t, held)[..|held| - 1] == FragmentsOf(t, front);
    }
  }

  lemma CutsOrder(t: Tiling, j: nat, k: nat)
    requires t.Valid() && j < t.Pieces() && k < t.Pieces()
    ensures t.cuts[j] < t.cuts[k] <==> j < k
    ensures t.cuts[j] == t.cuts[k] <==> j == k
  {
  }

  /** The place found by comparing offsets splits the numbers held as comparing numbers would. */
  lemma PositionIsRank(t: Tiling, held: seq<nat>, j: nat, a: nat)
    requires t.Valid() && Within(held, t.Pieces()) && j < t.Pieces() && a < |held|
    ensures a < Position(FragmentsOf(t, held), t.cuts[j]) ==> held[a] < j
    ensures a == Position(FragmentsOf(t, held), t.cuts[j]) ==> j <= held[a]
  {
    PositionSplits(FragmentsOf(t, held), t.cuts[j], a);
    FragmentAt(t, held, a);
    CutsOrder(t, held[a], j);
  }

  lemma Ranked(t: Tiling, held: seq<nat>, j: nat, p: nat)
    requires t.Valid() && Within(held, t.Pieces()) && j < t.Pieces() && Increasing(held)
    requires p == Position(FragmentsOf(t, held), t.cuts[j])
    ensures forall a :: 0 <= a < p ==> held[a] < j
    ensures forall a :: p < a < |held| ==> j < held[a]
    ensures p < |held| ==> j <= held[p]
  {
    forall a | 0 <= a < p ensures held[a] < j { PositionIsRank(t, held, j, a); }
    if p < |held| { PositionIsRank(t, held, j, p); }
  }

  /** Numbers with j put in its place. */
  ghost predicate Extended(held: seq<nat>, j: nat, held': seq<nat>) {
    && Increasing(held') && forall k :: k in held' <==> k in held || k == j
  }

  lemma InsertExtends(held: seq<nat>, p: nat, j: nat)
    requires Increasing(held) && p <= |held|
    requires forall a :: 0 <= a < p ==> held[a] < j
    requires forall a :: p <= a < |held| ==> j < held[a]
    ensures Extended(held, j, held[..p] + [j] + held[p..])
  {
    var longer := held[..p] + [j] + held[p..];
    forall k ensures k in longer <==> k in held || k == j {
      assert held == held[..p] + held[p..];
    }
  }

  /** The stream after the j-th fragment arrives. */
  ghost function Arrive(t: Tiling, s: Stream, j: nat): Stream
    requires t.Valid() && j < t.Pieces()
  {
    AddAt(s, t.PieceFragment(j), j + 1 < t.Pieces(), t.protocol)
  }

  lemma ArriveIsAdd(t: Tiling, s: Stream, j: nat)
    requires t.Valid() && j < t.Pieces()
    ensures Add(s, t.Piece(j)) == Arrive(t, s, j)
  {
  }

  /** A fragment that is not held goes in at its place. */
  lemma AddMissing(t: Tiling, held: seq<nat>, s: Stream, j: nat, p: nat)
    requires Holds(t, held, s) && j < t.Pieces() && j !in held && p == Position(s.fragments, t.cuts[j])
    ensures Arrive(t, s, j).fragments == s.fragments[..p] + [t.PieceFragment(j)] + s.fragments[p..]
    ensures Arrive(t, s, j).receivedSize == s.receivedSize + t.Size(j)
    ensures Arrive(t, s, j).receivedEnd <==> s.receivedEnd || j == t.Pieces() - 1
    ensures Arrive(t, s, j).totalSize == if j == t.Pieces() - 1 then |t.payload| else s.totalSize
    ensures Arrive(t, s, j).protocol == if j == 0 then t.protocol else s.protocol
  {
    CutsOrder(t, 0, j);
    if p < |held| {
      CutsOrder(t, held[p], j);
      FragmentAt(t, held, p);
      assert held[p] in held;
    }
  }

  lemma HoldsMore(t: Tiling, held: seq<nat>, s: Stream, j: nat, p: nat)
    requires Holds(t, held, s) && j < t.Pieces() && j !in held && p == Position(s.fragments, t.cuts[j])
    requires Extended(held, j, held[..p] + [j] + held[p..])
    ensures Holds(t, held[..p] + [j] + held[p..], Arrive(t, s, j))
  {
    assert Within(Inserted(held, p, j), t.Pieces());
    BytesInsert(t, held, p, j);
    FragmentsInsert(t, held, p, j);
    AddMissing(t, held, s, j, p);
  }

  /** A fragment that arrives is added to what is held, once. */
  lemma AddPiece(t: Tiling, held: seq<nat>, s: Stream, j: nat) returns (held': seq<nat>)
    requires Holds(t, held, s) && j < t.Pieces()
    ensures Holds(t, held', Arrive(t, s, j)) && Extended(held, j, held')
  {
    var p := Position(s.fragments, t.cuts[j]);
    Ranked(t, held, j, p);
    if j in held {
      assert p < |held| && held[p] == j;
      FragmentAt(t, held, p);
      held' := held;
    } else {
      held' := held[..p] + [j] + held[p..];
      InsertExtends(held, p, j);
      HoldsMore(t, held, s, j, p);
    }
  }

  /** The stream after fragments arrive in the given order, repeats included. */
  ghost function Fed(t: Tiling, order: seq<nat>): Stream
    requires t.Valid() && Within(order, t.Pieces())
  {
    if order == [] then EmptyStream
    else Arrive(t, Fed(t, order[..|order| - 1]), order[|order| - 1])
  }

  lemma {:induction false} FedHolds(t: Tiling, order: seq<nat>) returns (held: seq<nat>)
    requires t.Valid() && Within(order, t.Pieces())
    ensures Holds(t, held, Fed(t, order)) && SameNumbers(held, order)
  {
    if order == [] {
      held := [];
    } else {
      var front, j := order[..|order| - 1], order[|order| - 1];
      var before := FedHolds(t, front);
      held := AddPiece(t, before, Fed(t, front), j);
      SameExtended(before, front, j, held);
      assert order == front + [j];
    }
  }

  predicate SameNumbers(a: seq<nat>, b: seq<nat>) {
    && (forall k :: k in a ==> k in b)
    && (forall k :: k in b ==> k in a)
  }

  lemma SameExtended(before: seq<nat>, front: seq<nat>, j: nat, held: seq<nat>)
    requires SameNumbers(before, front) && Extended(before, j, held)
    ensures SameNumbers(held, front + [j])
  {
  }

  lemma {:induction false} RebuiltFrom(t: Tiling, fragments: seq<Fragment>, j: nat)
    requires t.Valid() && j <= t.Pieces() == |fragments|
    requires forall a :: 0 <= a < |fragments| ==> fragments[a] == t.PieceFragment(a)
    ensures t.cuts[j] <= |t.payload| && Rebuilt(fragments[j..], t.cuts[j]) == Some(t.payload[t.cuts[j]..])
    decreases t.Pieces() - j
  {
    if j < t.Pieces() {
      RebuiltFrom(t, fragments, j + 1);
      assert fragments[j..][1..] == fragments[j + 1..];
      assert t.payload[t.cuts[j]..] == t.payload[t.cuts[j]..t.cuts[j + 1]] + t.payload[t.cuts[j + 1]..];
    }
  }

  /** A complete stream holds the fragments of the packet one after the other. */
  lemma AllAreInOrder(t: Tiling, held: seq<nat>, s: Stream)
    requires Holds(t, held, s) && s.IsComplete()
    ensures |s.fragments| == t.Pieces() && s.receivedSize == |t.payload|
    ensures forall a :: 0 <= a < |s.fragments| ==> s.fragments[a] == t.PieceFragment(a)
  {
    BytesBound(t, held, t.Pieces());
    FullIsAll(held, t.Pieces());
    forall a | 0 <= a < |held| ensures s.fragments[a] == t.PieceFragment(a) { FragmentAt(t, held, a); }
  }

  /** Whatever the order and the repeats: complete exactly when all fragments came, and then rebuilt exactly. */
  lemma ReassemblesInAnyOrder(t: Tiling, order: seq<nat>)
    requires t.Valid() && Within(order, t.Pieces())
    ensures Fed(t, order).IsComplete() <==> forall j :: 0 <= j < t.Pieces() ==> j in order
    ensures Fed(t, order).IsComplete() ==>
      Rebuilt(Fed(t, order).fragments, 0) == Some(t.payload) && Fed(t, order).protocol == t.protocol
  {
    var held := FedHolds(t, order);
    var s := Fed(t, order);
    CompleteIffAll(t, held, s);
    if s.IsComplete() {
      AllAreInOrder(t, held, s);
      RebuiltFrom(t, s.fragments, 0);
      assert s.fragments[0..] == s.fragments && t.payload[0..] == t.payload;
      assert 0 in held;
    }
  }

  // -------------------------------------------------------------- the reassembler

  /** The identification and the two addresses, smaller first: the direction is not part of the key. */
  datatype Key = Key(id: Word, low: Address, high: Address)

  datatype Status = NotFragmented | Fragmented | Reassembled(payload: Bytes, protocol: int)

  datatype Outcome = Outcome(streams: map<Key, Stream>, status: Status)

  function MakeKey(id: Word, a: Address, b: Address): Key {
    if a.value < b.value then Key(id, a, b) else Key(id, b, a)
  }

  function KeyOf(ip: Packet): Key { MakeKey(ip.id, ip.src, ip.dst) }

  /** Two packets share a stream exactly when their identifications and their unordered address pairs agree. */
  lemma SameKeyIff(p: Packet, q: Packet)
    ensures KeyOf(p) == KeyOf(q) <==> p.id == q.id && multiset{p.src, p.dst} == multiset{q.src, q.dst}
  {
  }

  function StreamOf(streams: map<Key, Stream>, k: Key): Stream {
    if k in streams then streams[k] else EmptyStream
  }

  /** A packet is None when it has no IP layer or nothing inside it. */
  function Process(streams: map<Key, Stream>, packet: Option<Packet>): Outcome {
    if packet.None? || !packet.value.IsFragmented() then Outcome(streams, NotFragmented)
    else
      var k := KeyOf(packet.value);
      var s := Add(StreamOf(streams, k), packet.value);
      if !s.IsComplete() then Outcome(streams[k := s], Fragmented)
      else
        match Rebuilt(s.fragments, 0)
        case None => Outcome(streams - {k}, Fragmented)
        case Some(payload) => Outcome(streams[k := s], Reassembled(payload, s.protocol))
  }

  /** A fragment starts where the one before ends, in 16-bit arithmetic, or is the first one, at the start. */
  predicate InPlace(fragments: seq<Fragment>, start: Word, i: nat)
    requires i < |fragments|
  {
    fragments[i].offset ==
      if i == 0 then start else (fragments[i - 1].offset + |fragments[i - 1].payload|) % 0x1_0000
  }

  ghost predicate Contiguous(fragments: seq<Fragment>, start: Word) {
    forall i :: 0 <= i < |fragments| ==> InPlace(fragments, start, i)
  }

  function Concatenated(fragments: seq<Fragment>): Bytes {
    if fragments == [] then [] else fragments[0].payload + Concatenated(fragments[1..])
  }

  lemma ContiguousTail(fragments: seq<Fragment>, start: Word, next: Word)
    requires fragments != [] && next == (fragments[0].offset + |fragments[0].payload|) % 0x1_0000
    ensures Contiguous(fragments, start) <==> fragments[0].offset == start && Contiguous(fragments[1..], next)
  {
    var rest := fragments[1..];
    forall i | 0 <= i < |rest| ensures InPlace(rest, next, i) <==> InPlace(fragments, start, i + 1) {
      assert rest[i] == fragments[i + 1];
    }
    if fragments[0].offset == start && Contiguous(rest, next) {
      forall i | 0 <= i < |fragments| ensures InPlace(fragments, start, i) {
        if i > 0 { assert InPlace(rest, next, i - 1); }
      }
    }
    if Contiguous(fragments, start) {
      assert InPlace(fragments, start, 0);
      forall i | 0 <= i < |rest| ensures InPlace(rest, next, i) {
        assert InPlace(fragments, start, i + 1);
      }
    }
  }

  /** A payload is rebuilt exactly from contiguous fragments, as their concatenation. */
  lemma {:induction false} RebuiltIff(fragments: seq<Fragment>, start: Word)
    ensures Rebuilt(fragments, start) == if Contiguous(fragments, start) then Some(Concatenated(fragments)) else None
    decreases |fragments|
  {
    if fragments != [] {
      var next: Word := (fragments[0].offset + |fragments[0].payload|) % 0x1_0000;
      ContiguousTail(fragments, start, next);
      RebuiltIff(fragments[1..], next);
    }
  }

  /** A stream is forgotten exactly when its bytes are all there by their number but not by their places. */
  lemma ForgottenIff(streams: map<Key, Stream>, ip: Packet)
    requires ip.IsFragmented()
    ensures var s, after := Add(StreamOf(streams, KeyOf(ip)), ip), Process(streams, Some(ip));
            && (KeyOf(ip) !in after.streams <==> s.IsComplete() && !Contiguous(s.fragments, 0))
            && (KeyOf(ip) !in after.streams ==> after.status == Fragmented)
            && (KeyOf(ip) in after.streams ==> after.streams[KeyOf(ip)] == s)
  {
    RebuiltIff(Add(StreamOf(streams, KeyOf(ip)), ip).fragments, 0);
  }

  /** The stream after packets under its key. */
  ghost function StreamAfter(packets: seq<Packet>): Stream {
    if packets == [] then EmptyStream else Add(StreamAfter(packets[..|packets| - 1]), packets[|packets| - 1])
  }

  predicate StartsAtZero(s: Stream) { s.fragments != [] && s.fragments[0].offset == 0 }

  lemma AddAtZero(s: Stream, ip: Packet)
    ensures StartsAtZero(Add(s, ip)) <==> StartsAtZero(s) || ip.Offset() == 0
    ensures Add(s, ip).protocol == if !StartsAtZero(s) && ip.Offset() == 0 then ip.protocol else s.protocol
  {
  }

  /** The protocol is that of the first packet that came with offset 0. */
  lemma {:induction false} ProtocolIsOfTheFirst(packets: seq<Packet>, i: nat)
    requires i < |packets| && packets[i].Offset() == 0 && forall j :: 0 <= j < i ==> packets[j].Offset() != 0
    ensures StreamAfter(packets).protocol == packets[i].protocol && StartsAtZero(StreamAfter(packets))
    decreases |packets|
  {
    var front, last := packets[..|packets| - 1], packets[|packets| - 1];
    AddAtZero(StreamAfter(front), last);
    if i < |front| {
      ProtocolIsOfTheFirst(front, i);
    } else {
      NoneAtZero(front);
    }
  }

  lemma {:induction false} NoneAtZero(packets: seq<Packet>)
    requires forall j :: 0 <= j < |packets| ==> packets[j].Offset() != 0
    ensures !StartsAtZero(StreamAfter(packets))
    decreases |packets|
  {
    if packets != [] {
      var front := packets[..|packets| - 1];
      NoneAtZero(front);
      AddAtZero(StreamAfter(front), packets[|packets| - 1]);
    }
  }

  /** A packet is left alone exactly if its offset is 0, no more fragments follow and the reserved bit is clear. */
  lemma NotFragmentedIff(streams: map<Key, Stream>, ip: Packet)
    ensures Process(streams, Some(ip)).status == NotFragmented <==>
      ip.Offset() == 0 && !ip.MoreFragments() && ip.fragOff < 0x8000
    ensures Process(streams, Some(ip)).status == NotFragmented ==> Process(streams, Some(ip)).streams == streams
  {
  }

  class Reassembler {
    var streams: map<Key, Stream>

    constructor ()
      ensures streams == map[]
    {
      streams := map[];
    }

    method Receive(packet: Option<Packet>) returns (status: Status)
      modifies this
      ensures Outcome(streams, status) == Process(old(streams), packet)
    {
      if packet.Some? && packet.value.IsFragmented() {
        var ip := packet.value;
        var k := KeyOf(ip);
        if k !in streams { streams := streams[k := EmptyStream]; }
        var s := AddFragment(streams[k], ip);
        streams := streams[k := s];
        assert streams == old(streams)[k := s];
        if s.IsComplete() {
          var pdu := AllocatePdu(s);
          if pdu.None? {
            streams := streams - {k};
            assert streams == old(streams) - {k};
            return Fragmented;
          }
          return Reassembled(pdu.value, s.protocol);
        }
        return Fragmented;
      }
      return NotFragmented;
    }
  }

  // ------------------------------------------------ one packet among all other traffic

  /** What the reassembler sees next: a fragment of the packet followed, or anything else. */
  datatype Event = Mine(j: nat) | Foreign(packet: Option<Packet>)

  ghost function KeyFor(t: Tiling): Key { MakeKey(t.id, t.src, t.dst) }

  /** Foreign traffic is anything that is not a fragment under the same key. */
  ghost predicate Allowed(t: Tiling, e: Event) {
    match e
    case Mine(j) => j < t.Pieces()
    case Foreign(packet) => packet.Some? && packet.value.IsFragmented() ==> KeyOf(packet.value) != KeyFor(t)
  }

  ghost predicate AllAllowed(t: Tiling, events: seq<Event>) {
    forall i :: 0 <= i < |events| ==> Allowed(t, events[i])
  }

  ghost function PacketOf(t: Tiling, e: Event): Option<Packet>
    requires t.Valid() && Allowed(t, e)
  {
    if e.Mine? then Some(t.Piece(e.j)) else e.packet
  }

  ghost function After(start: map<Key, Stream>, t: Tiling, events: seq<Event>): map<Key, Stream>
    requires t.Valid() && AllAllowed(t, events)
  {
    if events == [] then start
    else
      Process(After(start, t, events[..|events| - 1]), PacketOf(t, events[|events| - 1])).streams
  }

  /** The fragments of the packet followed, in order of arrival. */
  ghost function Arrived(t: Tiling, events: seq<Event>): (order: seq<nat>)
    requires AllAllowed(t, events)
    ensures Within(order, t.Pieces())
  {
    if events == [] then []
    else
      var e := events[|events| - 1];
      Arrived(t, events[..|events| - 1]) + if e.Mine? then [e.j] else []
  }

  lemma OtherKeyLeftAlone(streams: map<Key, Stream>, k: Key, s: Stream, mine: Key)
    requires k != mine
    ensures StreamOf(streams[k := s], mine) == StreamOf(streams, mine)
    ensures StreamOf(streams - {k}, mine) == StreamOf(streams, mine)
  {
  }

  /** Only the stream of the packet's own key is touched. */
  lemma ProcessTouchesOneKey(streams: map<Key, Stream>, packet: Option<Packet>) returns (k: Key, s: Stream)
    ensures packet.Some? ==> k == KeyOf(packet.value)
    ensures packet.None? || !packet.value.IsFragmented() ==> Process(streams, packet).streams == streams
    ensures var after := Process(streams, packet).streams;
            after == streams || after == streams[k := s] || after == streams - {k}
  {
    if packet.None? {
      k, s := Key(0, Address(0), Address(0)), EmptyStream;
    } else {
      k := KeyOf(packet.value);
      s := Add(StreamOf(streams, k), packet.value);
    }
  }

  lemma ForeignLeavesAlone(streams: map<Key, Stream>, t: Tiling, packet: Option<Packet>)
    requires Allowed(t, Foreign(packet))
    ensures StreamOf(Process(streams, packet).streams, KeyFor(t)) == StreamOf(streams, KeyFor(t))
  {
    var k, s := ProcessTouchesOneKey(streams, packet);
    if packet.Some? && packet.value.IsFragmented() {
      OtherKeyLeftAlone(streams, k, s, KeyFor(t));
    }
  }

  lemma PieceIsFragmented(t: Tiling, j: nat)
    requires t.Valid() && j < t.Pieces() && t.Pieces() >= 2
    ensures t.Piece(j).IsFragmented() && KeyOf(t.Piece(j)) == KeyFor(t)
  {
  }

  ghost predicate AllIn(t: Tiling, order: seq<nat>) {
    forall j :: 0 <= j < t.Pieces() ==> j in order
  }

  /** One more fragment of the packet followed. */
  lemma MineStep(streams: map<Key, Stream>, t: Tiling, order: seq<nat>, j: nat)
    requires t.Valid() && t.Pieces() >= 2 && j < t.Pieces() && Within(order, t.Pieces())
    requires StreamOf(streams, KeyFor(t)) == Fed(t, order)
    ensures StreamOf(Process(streams, Some(t.Piece(j))).streams, KeyFor(t)) == Fed(t, order + [j])
    ensures Process(streams, Some(t.Piece(j))).status
         == if AllIn(t, order + [j]) then Reassembled(t.payload, t.protocol) else Fragmented
  {
    PieceIsFragmented(t, j);
    ArriveIsAdd(t, Fed(t, order), j);
    assert (order + [j])[..|order|] == order;
    ReassemblesInAnyOrder(t, order + [j]);
  }

  lemma {:induction false} StreamFollows(start: map<Key, Stream>, t: Tiling, events: seq<Event>)
    requires t.Valid() && t.Pieces() >= 2 && AllAllowed(t, events) && KeyFor(t) !in start
    ensures StreamOf(After(start, t, events), KeyFor(t)) == Fed(t, Arrived(t, events))
  {
    if events != [] {
      var front, e := events[..|events| - 1], events[|events| - 1];
      StreamFollows(start, t, front);
      if e.Mine? {
        MineStep(After(start, t, front), t, Arrived(t, front), e.j);
      } else {
        ForeignLeavesAlone(After(start, t, front), t, e.packet);
        assert Arrived(t, events) == Arrived(t, front);
      }
    }
  }

  /** Among any other traffic, each arriving fragment is answered with the whole packet exactly when none is missing. */
  lemma InterleavedReassembly(start: map<Key, Stream>, t: Tiling, events: seq<Event>, j: nat)
    requires t.Valid() && t.Pieces() >= 2 && AllAllowed(t, events) && KeyFor(t) !in start && j < t.Pieces()
    ensures Process(After(start, t, events), Some(t.Piece(j))).status
         == if AllIn(t, Arrived(t, events) + [j]) then Reassembled(t.payload, t.protocol) else Fragmented
  {
    StreamFollows(start, t, events);
    MineStep(After(start, t, events), t, Arrived(t, events), j);
  }

  lemma KnownOffsetIsFound(t: Tiling, order: seq<nat>, j: nat, p: nat)
    requires t.Valid() && Within(order, t.Pieces()) && j in order && j < t.Pieces()
    requires p == Position(Fed(t, order).fragments, t.cuts[j])
    ensures p < |Fed(t, order).fragments| && Fed(t, order).fragments[p].offset == t.cuts[j]
  {
    var held := FedHolds(t, order);
    Ranked(t, held, j, p);
    assert p < |held| && held[p] == j;
    FragmentAt(t, held, p);
  }

  lemma KnownOffsetIsIgnored(s: Stream, ip: Packet, p: nat)
    requires p == Position(s.fragments, ip.Offset()) && p < |s.fragments| && s.fragments[p].offset == ip.Offset()
    ensures Add(s, ip) == s
  {
  }

  lemma CompleteAgain(streams: map<Key, Stream>, ip: Packet, s: Stream, payload: Bytes)
    requires ip.IsFragmented() && KeyOf(ip) in streams && streams[KeyOf(ip)] == s && Add(s, ip) == s
    requires s.IsComplete() && Rebuilt(s.fragments, 0) == Some(payload)
    ensures Process(streams, Some(ip)) == Outcome(streams, Reassembled(payload, s.protocol))
  {
  }

  /** Under a key whose packet is complete, a packet that starts at a known offset is answered with the old one. */
  lemma ReusedKeyGetsOldBytes(start: map<Key, Stream>, t: Tiling, events: seq<Event>, ip: Packet, j: nat)
    requires t.Valid() && t.Pieces() >= 2 && AllAllowed(t, events) && KeyFor(t) !in start
    requires AllIn(t, Arrived(t, events))
    requires ip.IsFragmented() && KeyOf(ip) == KeyFor(t) && j < t.Pieces() && ip.Offset() == t.cuts[j]
    ensures Process(After(start, t, events), Some(ip))
         == Outcome(After(start, t, events), Reassembled(t.payload, t.protocol))
  {
    var streams, order := After(start, t, events), Arrived(t, events);
    var s := Fed(t, order);
    StreamFollows(start, t, events);
    ReassemblesInAnyOrder(t, order);
    assert s != EmptyStream;
    var p := Position(s.fragments, t.cuts[j]);
    KnownOffsetIsFound(t, order, j, p);
    KnownOffsetIsIgnored(s, ip, p);
    CompleteAgain(streams, ip, s, t.payload);
  }

  // ---------------------------------- a key whose packet is complete is used again

  /** The old packet was cut at the offset. */
  ghost predicate KnownOffset(t: Tiling, offset: int) {
    exists j :: 0 <= j < t.Pieces() && t.cuts[j] == offset
  }

  lemma RebuiltFirst(fragments: seq<Fragment>, expected: Word, payload: Bytes) returns (rest: Bytes)
    requires fragments != [] && Rebuilt(fragments, expected) == Some(payload)
    ensures fragments[0].offset == expected && payload == fragments[0].payload + rest
    ensures Rebuilt(fragments[1..], (expected + |fragments[0].payload|) % 0x1_0000) == Some(rest)
  {
    rest := Rebuilt(fragments[1..], (expected + |fragments[0].payload|) % 0x1_0000).value;
  }

  lemma RebuiltPut(first: Fragment, more: seq<Fragment>, next: Word, rest: Bytes)
    requires first.offset + |first.payload| == next && Rebuilt(more, next) == Some(rest)
    ensures Rebuilt([first] + more, first.offset) == Some(first.payload + rest)
  {
    assert ([first] + more)[1..] == more && next % 0x1_0000 == next;
  }

  lemma {:induction false} RebuiltAppend(fragments: seq<Fragment>, f: Fragment, expected: Word, payload: Bytes)
    requires Rebuilt(fragments, expected) == Some(payload) && expected + |payload| == f.offset
    ensures Rebuilt(fragments + [f], expected) == Some(payload + f.payload)
  {
    if fragments == [] {
      assert fragments + [f] == [f] && [f][1..] == [] && payload + f.payload == f.payload + [];
    } else {
      var first, tail := fragments[0], fragments[1..];
      var rest := RebuiltFirst(fragments, expected, payload);
      var next: Word := expected + |first.payload|;
      RebuiltAppend(tail, f, next, rest);
      RebuiltPut(first, tail + [f], next, rest + f.payload);
      assert fragments + [f] == [first] + (tail + [f]);
      assert first.payload + (rest + f.payload) == payload + f.payload;
    }
  }

  /** All fragments of the packet are there, in order. */
  ghost predicate HoldsAll(t: Tiling, s: Stream) {
    && t.Valid() && s.receivedEnd && s.receivedSize == s.totalSize == |t.payload| && s.protocol == t.protocol
    && |s.fragments| == t.Pieces()
    && (forall a :: 0 <= a < |s.fragments| ==> s.fragments[a] == t.PieceFragment(a))
    && Rebuilt(s.fragments, 0) == Some(t.payload)
  }

  lemma AllArrived(t: Tiling, order: seq<nat>)
    requires t.Valid() && Within(order, t.Pieces()) && AllIn(t, order)
    ensures HoldsAll(t, Fed(t, order))
  {
    var held := FedHolds(t, order);
    ReassemblesInAnyOrder(t, order);
    AllAreInOrder(t, held, Fed(t, order));
  }

  /** Another offset adds to the bytes held, which completes only a packet that goes on where the old one ended. */
  lemma UnknownOffsetIsAdded(t: Tiling, s: Stream, f: Fragment, more: bool, protocol: int)
    requires HoldsAll(t, s) && !KnownOffset(t, f.offset) && f.payload != []
    ensures AddAt(s, f, more, protocol).IsComplete() <==> !more && f.offset == |t.payload|
    ensures AddAt(s, f, more, protocol).protocol == t.protocol
    ensures f.offset == |t.payload| ==>
      Rebuilt(AddAt(s, f, more, protocol).fragments, 0) == Some(t.payload + f.payload)
  {
    assert t.cuts[0] == 0;
    var p := Position(s.fragments, f.offset);
    if p < |s.fragments| {
      assert s.fragments[p].offset == t.cuts[p];
      PositionSplits(s.fragments, f.offset, p);
      assert t.cuts[p] < t.cuts[t.Pieces()];
    } else {
      assert s.fragments[..p] + [f] + s.fragments[p..] == s.fragments + [f];
    }
    if f.offset == |t.payload| { RebuiltAppend(s.fragments, f, 0, t.payload); }
  }

  /** What answers the first fragment of another packet under the key. */
  ghost function ReusedAnswer(t: Tiling, ip: Packet): Status {
    if KnownOffset(t, ip.Offset()) then Reassembled(t.payload, t.protocol)
    else if !ip.MoreFragments() && ip.Offset() == |t.payload| then Reassembled(t.payload + ip.payload, t.protocol)
    else Fragmented
  }

  lemma ReusedKeyAnswer(start: map<Key, Stream>, t: Tiling, events: seq<Event>, ip: Packet)
    requires t.Valid() && t.Pieces() >= 2 && AllAllowed(t, events) && KeyFor(t) !in start
    requires AllIn(t, Arrived(t, events))
    requires ip.IsFragmented() && KeyOf(ip) == KeyFor(t) && ip.payload != []
    ensures Process(After(start, t, events), Some(ip)).status == ReusedAnswer(t, ip)
  {
    if KnownOffset(t, ip.Offset()) {
      var j :| 0 <= j < t.Pieces() && t.cuts[j] == ip.Offset();
      ReusedKeyGetsOldBytes(start, t, events, ip, j);
    } else {
      var order := Arrived(t, events);
      StreamFollows(start, t, events);
      AllArrived(t, order);
      UnknownOffsetIsAdded(t, Fed(t, order), Fragment(ip.Offset(), ip.payload), ip.MoreFragments(), ip.protocol);
    }
  }

  /**
   A packet that reuses the key is answered with itself exactly in two cases: its
   fragment starts where the old packet was cut and it is the old packet over
   again; or the fragment is its last one, starts where the old packet ended,
   and the bytes before are the old packet's.
   */
  lemma ReusedKeyIsRightIff(start: map<Key, Stream>, t: Tiling, events: seq<Event>, u: Tiling, i: nat)
    requires t.Valid() && t.Pieces() >= 2 && AllAllowed(t, events) && KeyFor(t) !in start
    requires AllIn(t, Arrived(t, events))
    requires u.Valid() && u.Pieces() >= 2 && KeyFor(u) == KeyFor(t) && i < u.Pieces()
    ensures Process(After(start, t, events), Some(u.Piece(i))).status == Reassembled(u.payload, u.protocol)
       <==> u.protocol == t.protocol &&
            if KnownOffset(t, u.cuts[i]) then u.payload == t.payload
            else i == u.Pieces() - 1 && u.cuts[i] == |t.payload| && u.payload[..u.cuts[i]] == t.payload
  {
    PieceIsFragmented(u, i);
    ReusedKeyAnswer(start, t, events, u.Piece(i));
    var at := u.cuts[i];
    assert u.payload == u.payload[..at] + u.payload[at..];
    if i == u.Pieces() - 1 && at == |t.payload| {
      assert u.Piece(i).payload == u.payload[at..];
      assert (t.payload + u.payload[at..])[..at] == t.payload;
    }
  }
}
