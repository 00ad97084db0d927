/**
 TCP stream reassembly: serial-number arithmetic, the fragment map keyed by
 sequence number, and the drain loop that walks it with an iterator wrapping at
 the end.

 Sequence numbers are 32-bit and wrap; bytes are therefore identified by their
 positions in the stream, and a number stands for the position nearest to the
 delivery point that has it.  The source adds numbers modulo 2^32-1 where RFC
 1982 adds modulo 2^32, so an end that wraps comes out one too large.  The
 reassembly theorem says that this matters in one case only: a segment that
 wraps and ends one byte before the delivery point, from which the source
 erases more bytes than it has.
 */
module TcpStream {
  import opened NatSets

  const SEQ_SPACE := 0x1_0000_0000
  const ADDITION_MODULO := 0xFFFF_FFFF
  const SEQ_NUMBER_DIFF := 0x8000_0000

  type Seq32 = x: int | 0 <= x < SEQ_SPACE
  type Byte = x: int | 0 <= x < 256
  type Bytes = seq<Byte>
  type Fragments = map<Seq32, Bytes>

  // ---------------------------------------------------------- serial numbers

  function AddSeq(a: Seq32, b: Seq32): Seq32 { (a + b) % ADDITION_MODULO }

  function SubSeq(a: Seq32, b: Seq32): Seq32 {
    if a > b then a - b else ((0xFFFF_FFFF - b) + a + 1) % SEQ_SPACE
  }

  function CompareSeq(a: Seq32, b: Seq32): int {
    if a == b then 0
    else if a < b then (if b - a < SEQ_NUMBER_DIFF then -1 else 1)
    else (if a - b > SEQ_NUMBER_DIFF then -1 else 1)
  }

  /** The order of section 3.2 of RFC 1982, for 32 serial bits. */
  predicate SerialLess(a: Seq32, b: Seq32) {
    0 < (b - a) % SEQ_SPACE < SEQ_NUMBER_DIFF
  }

  /** Addition agrees with section 3.1 of RFC 1982 exactly below the modulus in use. */
  lemma AddSeqIsSerial(a: Seq32, b: Seq32)
    ensures AddSeq(a, b) == (a + b) % SEQ_SPACE <==> a + b < ADDITION_MODULO
  {
    var s := a + b;
    if s < ADDITION_MODULO {
    } else if s < 2 * ADDITION_MODULO {
      assert s % ADDITION_MODULO == s - ADDITION_MODULO;
      assert s % SEQ_SPACE == if s < SEQ_SPACE then s else s - SEQ_SPACE;
    } else {
      assert s == 2 * ADDITION_MODULO;
    }
  }

  lemma SubSeqIsSerial(a: Seq32, b: Seq32)
    ensures SubSeq(a, b) == (a - b) % SEQ_SPACE
    ensures (b + SubSeq(a, b)) % SEQ_SPACE == a
  {
    if a <= b {
      assert (a - b) % SEQ_SPACE == (SEQ_SPACE + a - b) % SEQ_SPACE;
    }
  }

  /** Comparison decides the serial order, except that two numbers 2^31 apart are each "greater". */
  lemma CompareSeqIsSerial(a: Seq32, b: Seq32)
    ensures CompareSeq(a, b) < 0 <==> SerialLess(a, b)
    ensures CompareSeq(a, b) == 0 <==> a == b
    ensures (CompareSeq(a, b) > 0 <==> SerialLess(b, a)) <==> (b - a) % SEQ_SPACE != SEQ_NUMBER_DIFF
  {
    if a < b {
      assert (b - a) % SEQ_SPACE == b - a;
      assert (a - b) % SEQ_SPACE == SEQ_SPACE + a - b;
    } else if b < a {
      assert (a - b) % SEQ_SPACE == a - b;
      assert (b - a) % SEQ_SPACE == SEQ_SPACE + b - a;
    }
  }

  /** The slice taken from a chunk of this length that starts before mySeq is longer than the chunk. */
  predicate SlicesTooMuch(mySeq: Seq32, start: Seq32, length: Seq32) {
    && CompareSeq(AddSeq(start, length), mySeq) >= 0
    && CompareSeq(start, mySeq) < 0
    && SubSeq(mySeq, start) > length
  }

  lemma AddSeqWraps(a: Seq32, b: Seq32)
    requires ADDITION_MODULO <= a + b < 2 * ADDITION_MODULO
    ensures AddSeq(a, b) == a + b - ADDITION_MODULO
  {
    assert (a + b) % ADDITION_MODULO == a + b - ADDITION_MODULO;
  }

  /** How far apart two numbers are, counting upwards and round the end. */
  function Distance(from: Seq32, to: Seq32): nat { if to >= from then to - from else to - from + SEQ_SPACE }

  lemma SubSeqCases(a: Seq32, b: Seq32)
    ensures SubSeq(a, b) == Distance(b, a)
  {
  }

  /** That happens exactly when the addition wraps and the chunk ends one byte short of mySeq. */
  lemma SlicesTooMuchIff(mySeq: Seq32, start: Seq32, length: Seq32)
    requires length < SEQ_NUMBER_DIFF - 1
    ensures SlicesTooMuch(mySeq, start, length)
       <==> start + length >= ADDITION_MODULO && SubSeq(mySeq, start) == length + 1
  {
    SubSeqCases(mySeq, start);
    if start + length >= ADDITION_MODULO {
      AddSeqWraps(start, length);
    }
  }

  /** The other slice, of a fragment that is buffered, is never too long. */
  lemma BufferedSliceFits(mySeq: Seq32, start: Seq32, length: Seq32)
    requires length < SEQ_NUMBER_DIFF - 1
    ensures CompareSeq(AddSeq(start, length), mySeq) > 0 && CompareSeq(start, mySeq) < 0 ==>
      SubSeq(mySeq, start) <= length
  {
    SubSeqCases(mySeq, start);
    if start + length >= ADDITION_MODULO {
      AddSeqWraps(start, length);
    }
  }

  /** For instance for a two-byte chunk at 2^32 - 3 when byte 0 is expected. */
  lemma SlicesTooMuchExample()
    ensures SlicesTooMuch(0, 0xFFFF_FFFD, 2) && SubSeq(0, 0xFFFF_FFFD) == 3
  {
  }

  // ------------------------------------------------- std::map and its iterator

  datatype Iterator = End | At(key: Seq32)

  function Begin(frags: Fragments): (it: Iterator)
    ensures it.At? ==> it.key in frags && forall j :: j in frags ==> it.key <= j
    ensures it.End? <==> frags.Keys == {}
  {
    if frags.Keys == {} then End else At(Least(frags.Keys))
  }

  function Next(frags: Fragments, k: Seq32): (it: Iterator)
    ensures it.At? ==> it.key in frags && k < it.key && forall j :: j in frags && k < j ==> it.key <= j
    ensures it.End? ==> forall j :: j in frags ==> j <= k
  {
    var above := set j | j in frags && k < j;
    assert forall j :: j in frags && k < j ==> j in above;
    if above == {} then End else At(Least(above))
  }

  function Find(frags: Fragments, k: Seq32): Iterator {
    if k in frags then At(k) else End
  }

  /** erase_iterator: erase the fragment at k and step, wrapping from the end to the beginning. */
  function EraseIterator(frags: Fragments, k: Seq32): (r: (Iterator, Fragments))
    requires k in frags
    ensures r.1 == frags - {k}
    ensures r.0.At? ==> r.0.key in r.1
    ensures r.0.End? <==> r.1.Keys == {}
    // the step goes to the next key round the circle of numbers
    ensures r.0.At? ==> forall j :: j in r.1 ==> Distance(k, r.0.key) <= Distance(k, j)
  {
    var output := Next(frags, k);
    var rest: Fragments := frags - {k};
    (if output.End? then Begin(rest) else output, rest)
  }

  function SafeInsert(frags: Fragments, s: Seq32, raw: Bytes): Fragments {
    if s in frags && |frags[s]| > |raw| then frags else frags[s := raw]
  }

  /** vector::erase(begin, begin + n); beyond the end it has no defined meaning, and here leaves nothing. */
  function EraseFront(raw: Bytes, n: nat): Bytes {
    if n <= |raw| then raw[n..] else []
  }

  // -------------------------------------------------- streams and their segments

  /** The bytes one side sends, the first one carrying sequence number isn. */
  datatype ByteStream = ByteStream(isn: Seq32, data: Bytes) {
    /** The sequence number of a position. */
    function SeqAt(pos: nat): Seq32 { (isn + pos) % SEQ_SPACE }
  }

  /** A segment as it arrives: its sequence number and its bytes. */
  datatype Segment = Segment(start: Seq32, payload: Bytes)

  /** The bytes of a segment, and where in the stream they are. */
  datatype Chunk = Chunk(at: nat, payload: Bytes) {
    function Limit(): nat { at + |payload| }
    predicate Contains(i: int) { at <= i < Limit() }

    /** The position is in the chunk, or at its end. */
    predicate Meets(i: int) { at <= i <= Limit() }
  }

  /** The bytes at this position are those of the stream. */
  predicate Agrees(st: ByteStream, at: nat, raw: Bytes) {
    && at + |raw| <= |st.data|
    && forall i :: 0 <= i < |raw| ==> raw[i] == st.data[at + i]
  }

  /** The segment carries the chunk. */
  predicate Carries(st: ByteStream, seg: Segment, c: Chunk) {
    seg.start == st.SeqAt(c.at) && seg.payload == c.payload && Agrees(st, c.at, c.payload)
  }

  /** The chunk lies less than half the number space away from position n. */
  predicate InWindow(n: nat, c: Chunk) {
    n - SEQ_NUMBER_DIFF < c.at && c.Limit() < n + SEQ_NUMBER_DIFF
  }

  /** The chunk's end wraps, and lies one byte before position n. */
  predicate OneShort(st: ByteStream, n: nat, c: Chunk) {
    st.SeqAt(c.at) + |c.payload| >= ADDITION_MODULO && c.Limit() + 1 == n
  }

  ghost predicate Covered(received: set<Chunk>, i: int) {
    exists c :: c in received && c.Contains(i)
  }

  /** How many bytes from the n-th on are covered without a gap, plus n: the reference for the output length. */
  ghost function PrefixLength(st: ByteStream, received: set<Chunk>, n: nat): (len: nat)
    requires n <= |st.data|
    ensures n <= len <= |st.data|
    decreases |st.data| - n
  {
    if n < |st.data| && Covered(received, n) then PrefixLength(st, received, n + 1) else n
  }

  /** The longest prefix of the stream that the received chunks cover. */
  ghost function LongestPrefix(st: ByteStream, received: set<Chunk>): Bytes {
    st.data[..PrefixLength(st, received, 0)]
  }

  // --------------------------------------------------------- numbers and positions

  /** A position and its number; other numbers stand for the positions that follow it. */
  datatype Base = Base(pos: nat, number: Seq32) {
    function Pos(k: Seq32): nat { pos + Distance(number, k) }
  }

  lemma ModAdd(a: nat, b: nat)
    ensures (a % SEQ_SPACE + b) % SEQ_SPACE == (a + b) % SEQ_SPACE
  {
    assert a == a / SEQ_SPACE * SEQ_SPACE + a % SEQ_SPACE;
    ModSkip(a / SEQ_SPACE, a % SEQ_SPACE + b);
  }

  lemma {:induction false} ModSkip(q: nat, r: nat)
    ensures (q * SEQ_SPACE + r) % SEQ_SPACE == r % SEQ_SPACE
  {
    if q > 0 { ModSkip(q - 1, r); }
  }

  /** The distance between the numbers of two positions is that of the positions, if small. */
  lemma DistanceIs(st: ByteStream, p: nat, q: nat)
    requires p <= q < p + SEQ_SPACE
    ensures Distance(st.SeqAt(p), st.SeqAt(q)) == q - p
  {
    ModAdd(st.isn + p, q - p);
  }

  /** Numbers less than half the space ahead of the base compare as their positions. */
  lemma CompareAt(base: Base, a: Seq32, b: Seq32)
    requires base.Pos(a) <= base.pos + SEQ_NUMBER_DIFF && base.Pos(b) < base.pos + SEQ_NUMBER_DIFF
    ensures CompareSeq(a, b) < 0 <==> base.Pos(a) < base.Pos(b)
    ensures CompareSeq(a, b) == 0 <==> base.Pos(a) == base.Pos(b)
    ensures a == b <==> base.Pos(a) == base.Pos(b)
    ensures base.Pos(a) <= base.Pos(b) ==> SubSeq(b, a) == base.Pos(b) - base.Pos(a)
  {
    SubSeqCases(b, a);
  }

  /** The computed end of a fragment is its end, or one more if the addition wraps. */
  lemma EndAt(base: Base, k: Seq32, length: nat)
    requires base.Pos(k) + length < base.pos + SEQ_NUMBER_DIFF
    ensures length < SEQ_SPACE && length % SEQ_SPACE == length
    ensures base.Pos(AddSeq(k, length)) == base.Pos(k) + length + if k + length >= ADDITION_MODULO then 1 else 0
  {
    if k + length >= ADDITION_MODULO { AddSeqWraps(k, length); }
  }

  lemma ComparedBehind(st: ByteStream, n: nat, at: nat)
    requires at < n < at + SEQ_NUMBER_DIFF
    ensures CompareSeq(st.SeqAt(at), st.SeqAt(n)) < 0
    ensures SubSeq(st.SeqAt(n), st.SeqAt(at)) == n - at
  {
    DistanceIs(st, at, n);
    SubSeqCases(st.SeqAt(n), st.SeqAt(at));
  }

  lemma ComparedAhead(st: ByteStream, n: nat, at: nat)
    requires n <= at <= n + SEQ_NUMBER_DIFF
    ensures CompareSeq(st.SeqAt(at), st.SeqAt(n)) >= 0
    ensures CompareSeq(st.SeqAt(at), st.SeqAt(n)) == 0 <==> at == n
  {
    DistanceIs(st, n, at);
  }

  /** Within the number space, comparing numbers compares positions exactly less than half of it apart. */
  lemma ComparisonIsRightIff(st: ByteStream, n: nat, at: nat)
    requires n - SEQ_SPACE < at < n + SEQ_SPACE
    ensures (CompareSeq(st.SeqAt(at), st.SeqAt(n)) < 0 <==> at < n)
       <==> n - SEQ_NUMBER_DIFF < at <= n + SEQ_NUMBER_DIFF
  {
    if at < n { DistanceIs(st, at, n); } else { DistanceIs(st, n, at); }
  }

  // -------------------------------------------------------------------- invariants

  datatype Flow = Flow(mySeq: Seq32, payload: Bytes, frags: Fragments)

  ghost predicate Buffered(base: Base, frags: Fragments, i: int) {
    exists k :: k in frags && base.Pos(k) <= i < base.Pos(k) + |frags[k]|
  }

  /** The bytes of the fragment are stream bytes, less than half the space ahead of the base. */
  predicate FragmentOk(st: ByteStream, base: Base, k: Seq32, raw: Bytes) {
    Agrees(st, base.Pos(k), raw) && base.Pos(k) + |raw| < base.pos + SEQ_NUMBER_DIFF
  }

  predicate FragmentsOk(st: ByteStream, base: Base, frags: Fragments) {
    forall k :: k in frags ==> FragmentOk(st, base, k, frags[k])
  }

  predicate Delivered(st: ByteStream, f: Flow, base: Base) {
    && f.mySeq == st.SeqAt(|f.payload|)
    && base.Pos(f.mySeq) == |f.payload| < base.pos + SEQ_NUMBER_DIFF
    && Agrees(st, 0, f.payload)
  }

  /** The n bytes delivered and the fragments buffered are together exactly what was received. */
  ghost predicate Accounts(received: set<Chunk>, n: nat, base: Base, frags: Fragments) {
    && (forall i :: Covered(received, i) ==> i < n || Buffered(base, frags, i))
    && (forall i :: Buffered(base, frags, i) ==> Covered(received, i))
    && (forall i :: 0 <= i < n ==> Covered(received, i))
  }

  ghost predicate Consistent(st: ByteStream, received: set<Chunk>, f: Flow, base: Base) {
    Delivered(st, f, base) && FragmentsOk(st, base, f.frags) && Accounts(received, |f.payload|, base, f.frags)
  }

  predicate AllAfter(f: Flow, base: Base) {
    forall k :: k in f.frags ==> |f.payload| < base.Pos(k)
  }

  predicate NoneBefore(f: Flow, base: Base) {
    forall k :: k in f.frags ==> |f.payload| <= base.Pos(k)
  }

  /** Counting from the delivery point. */
  function Here(f: Flow): Base { Base(|f.payload|, f.mySeq) }

  /** Between packets, moreover, nothing buffered could be delivered. */
  ghost predicate FlowInv(st: ByteStream, received: set<Chunk>, f: Flow) {
    Consistent(st, received, f, Here(f)) && AllAfter(f, Here(f))
  }

  /** Once nothing is left behind the delivery point, positions may be counted from there. */
  lemma Rebase(st: ByteStream, received: set<Chunk>, f: Flow, base: Base)
    requires Consistent(st, received, f, base) && AllAfter(f, base)
    ensures FlowInv(st, received, f)
  {
    var here := Here(f);
    forall k | k in f.frags ensures here.Pos(k) == base.Pos(k) {}
    forall i ensures Buffered(here, f.frags, i) <==> Buffered(base, f.frags, i) {
      if Buffered(base, f.frags, i) {
        var k: Seq32 :| k in f.frags && base.Pos(k) <= i < base.Pos(k) + |f.frags[k]|;
        assert here.Pos(k) == base.Pos(k);
      }
      if Buffered(here, f.frags, i) {
        var k: Seq32 :| k in f.frags && here.Pos(k) <= i < here.Pos(k) + |f.frags[k]|;
        assert here.Pos(k) == base.Pos(k);
      }
    }
  }

  lemma {:induction false} PrefixLengthIs(st: ByteStream, received: set<Chunk>, n: nat, len: nat)
    requires n <= len <= |st.data|
    requires forall i :: n <= i < len ==> Covered(received, i)
    requires len < |st.data| ==> !Covered(received, len)
    ensures PrefixLength(st, received, n) == len
    decreases len - n
  {
    if n < len { PrefixLengthIs(st, received, n + 1, len); }
  }

  /** The invariant determines the output: it is the longest covered prefix, whatever order the segments came in. */
  lemma FlowDelivers(st: ByteStream, received: set<Chunk>, f: Flow)
    requires FlowInv(st, received, f)
    ensures f.payload == LongestPrefix(st, received)
    ensures f.mySeq == st.SeqAt(|f.payload|)
    ensures !Covered(received, |f.payload|)
  {
    assert !Buffered(Here(f), f.frags, |f.payload|);
    PrefixLengthIs(st, received, 0, |f.payload|);
  }

  lemma FlowInit(st: ByteStream)
    ensures FlowInv(st, {}, Flow(st.isn, [], map[]))
  {
  }

  // ------------------------------------------------------------ steps of the loop

  function Append(f: Flow, k: Seq32): Flow
    requires k in f.frags
  {
    Flow((f.mySeq + |f.frags[k]|) % SEQ_SPACE, f.payload + f.frags[k], f.frags - {k})
  }

  function Reslice(f: Flow, k: Seq32): Flow
    requires k in f.frags
  {
    f.(frags := SafeInsert(f.frags, f.mySeq, EraseFront(f.frags[k], SubSeq(f.mySeq, k))) - {k})
  }

  /** A chunk and the part of it, from number k on, that is inserted; what is cut off was delivered. */
  predicate PartOf(f: Flow, base: Base, c: Chunk, k: Seq32, raw: Bytes) {
    && c.at <= base.Pos(k) && base.Pos(k) + |raw| == c.Limit() < base.pos + SEQ_NUMBER_DIFF
    && (c.at < base.Pos(k) ==> base.Pos(k) <= |f.payload|)
    && raw == c.payload[base.Pos(k) - c.at..]
  }

  lemma CoverageGrows(received: set<Chunk>, c: Chunk, i: int)
    ensures Covered(received + {c}, i) <==> Covered(received, i) || c.Contains(i)
  {
    if Covered(received, i) {
      var c' :| c' in received && c'.Contains(i);
      assert c' in received + {c};
    }
    if c.Contains(i) { assert c in received + {c}; }
  }

  lemma InsertBuffers(f: Flow, base: Base, c: Chunk, k: Seq32, raw: Bytes, i: int)
    requires PartOf(f, base, c, k, raw) && i >= |f.payload| && (c.Contains(i) || Buffered(base, f.frags, i))
    ensures Buffered(base, SafeInsert(f.frags, k, raw), i)
  {
    var frags': Fragments := SafeInsert(f.frags, k, raw);
    if Buffered(base, f.frags, i) {
      var j: Seq32 :| j in f.frags && base.Pos(j) <= i < base.Pos(j) + |f.frags[j]|;
      assert j in frags' && base.Pos(j) <= i < base.Pos(j) + |frags'[j]|;
    } else {
      assert k in frags' && base.Pos(k) <= i < base.Pos(k) + |frags'[k]|;
    }
  }

  lemma InsertOnlyBuffers(f: Flow, base: Base, c: Chunk, k: Seq32, raw: Bytes, i: int)
    requires PartOf(f, base, c, k, raw) && Buffered(base, SafeInsert(f.frags, k, raw), i)
    ensures c.Contains(i) || Buffered(base, f.frags, i)
  {
    var frags': Fragments := SafeInsert(f.frags, k, raw);
    var j: Seq32 :| j in frags' && base.Pos(j) <= i < base.Pos(j) + |frags'[j]|;
    if j != k || frags'[j] != raw { assert j in f.frags && frags'[j] == f.frags[j]; }
  }

  lemma SuffixAgrees(st: ByteStream, at: nat, raw: Bytes, skip: nat)
    requires Agrees(st, at, raw) && skip <= |raw|
    ensures Agrees(st, at + skip, raw[skip..])
  {
    forall i | 0 <= i < |raw| - skip ensures raw[skip..][i] == st.data[at + skip + i] {
      var j := skip + i;
      assert raw[j] == st.data[at + j];
    }
  }

  lemma InsertedOk(st: ByteStream, base: Base, frags: Fragments, k: Seq32, raw: Bytes)
    requires FragmentsOk(st, base, frags) && FragmentOk(st, base, k, raw)
    ensures FragmentsOk(st, base, SafeInsert(frags, k, raw))
  {
  }

  lemma InsertAccounts(received: set<Chunk>, f: Flow, base: Base, c: Chunk, k: Seq32, raw: Bytes)
    requires Accounts(received, |f.payload|, base, f.frags) && PartOf(f, base, c, k, raw)
    ensures Accounts(received + {c}, |f.payload|, base, SafeInsert(f.frags, k, raw))
  {
    var frags', received' := SafeInsert(f.frags, k, raw), received + {c};
    forall i | Covered(received', i) ensures i < |f.payload| || Buffered(base, frags', i) {
      CoverageGrows(received, c, i);
      if i >= |f.payload| { InsertBuffers(f, base, c, k, raw, i); }
    }
    forall i | Buffered(base, frags', i) ensures Covered(received', i) {
      InsertOnlyBuffers(f, base, c, k, raw, i);
      CoverageGrows(received, c, i);
    }
    forall i | 0 <= i < |f.payload| ensures Covered(received', i) {
      CoverageGrows(received, c, i);
    }
  }

  lemma InsertKeeps(st: ByteStream, received: set<Chunk>, f: Flow, base: Base, c: Chunk, k: Seq32, raw: Bytes)
    requires Consistent(st, received, f, base) && Agrees(st, c.at, c.payload) && PartOf(f, base, c, k, raw)
    ensures Consistent(st, received + {c}, f.(frags := SafeInsert(f.frags, k, raw)), base)
  {
    SuffixAgrees(st, c.at, c.payload, base.Pos(k) - c.at);
    InsertedOk(st, base, f.frags, k, raw);
    InsertAccounts(received, f, base, c, k, raw);
  }

  /** A chunk that ends before the delivery point adds nothing. */
  lemma StaleKeeps(st: ByteStream, received: set<Chunk>, f: Flow, c: Chunk)
    requires FlowInv(st, received, f) && c.Limit() <= |f.payload|
    ensures FlowInv(st, received + {c}, f)
  {
    var received' := received + {c};
    forall i ensures Covered(received', i) <==> Covered(received, i) || c.Contains(i) {
      CoverageGrows(received, c, i);
    }
  }

  /** Without the fragment at k the others are as before. */
  lemma BufferedWithout(base: Base, frags: Fragments, k: Seq32, i: int)
    ensures Buffered(base, frags - {k}, i) ==> Buffered(base, frags, i)
    ensures Buffered(base, frags, i) ==>
      Buffered(base, frags - {k}, i) || (k in frags && base.Pos(k) <= i < base.Pos(k) + |frags[k]|)
  {
    var rest: Fragments := frags - {k};
    if Buffered(base, rest, i) {
      var j: Seq32 :| j in rest && base.Pos(j) <= i < base.Pos(j) + |rest[j]|;
      assert j in frags && frags[j] == rest[j];
    }
    if Buffered(base, frags, i) {
      var j: Seq32 :| j in frags && base.Pos(j) <= i < base.Pos(j) + |frags[j]|;
      if j != k { assert j in rest && rest[j] == frags[j]; }
    }
  }

  lemma AppendDelivers(st: ByteStream, f: Flow, base: Base, raw: Bytes)
    requires Delivered(st, f, base) && FragmentOk(st, base, f.mySeq, raw)
    ensures Delivered(st, Flow((f.mySeq + |raw|) % SEQ_SPACE, f.payload + raw, f.frags), base)
  {
    ModAdd(st.isn + |f.payload|, |raw|);
    var mySeq: Seq32 := (f.mySeq + |raw|) % SEQ_SPACE;
    assert Distance(base.number, mySeq) == Distance(base.number, f.mySeq) + |raw|;
  }

  lemma AppendKeeps(st: ByteStream, received: set<Chunk>, f: Flow, base: Base)
    requires Consistent(st, received, f, base) && f.mySeq in f.frags
    ensures Consistent(st, received, Append(f, f.mySeq), base)
  {
    var f', raw := Append(f, f.mySeq), f.frags[f.mySeq];
    AppendDelivers(st, f, base, raw);
    forall i | Covered(received, i) ensures i < |f'.payload| || Buffered(base, f'.frags, i) {
      BufferedWithout(base, f.frags, f.mySeq, i);
    }
    forall i | Buffered(base, f'.frags, i) ensures Covered(received, i) {
      BufferedWithout(base, f.frags, f.mySeq, i);
    }
    forall i | |f.payload| <= i < |f'.payload| ensures Covered(received, i) {
      assert Buffered(base, f.frags, i);
    }
  }

  lemma DropKeeps(st: ByteStream, received: set<Chunk>, f: Flow, base: Base, k: Seq32)
    requires Consistent(st, received, f, base) && k in f.frags && base.Pos(k) + |f.frags[k]| <= |f.payload|
    ensures Consistent(st, received, f.(frags := f.frags - {k}), base)
  {
    var f' := f.(frags := f.frags - {k});
    forall i ensures Covered(received, i) ==> i < |f.payload| || Buffered(base, f'.frags, i) {
      BufferedWithout(base, f.frags, k, i);
    }
    forall i | Buffered(base, f'.frags, i) ensures Covered(received, i) {
      BufferedWithout(base, f.frags, k, i);
    }
  }

  /** Putting in the part of a buffered fragment from the delivery point on buffers nothing else. */
  lemma ResliceBuffers(f: Flow, base: Base, k: Seq32, raw: Bytes, i: int)
    requires k in f.frags && base.Pos(k) < base.Pos(f.mySeq) == |f.payload| <= base.Pos(k) + |f.frags[k]|
    requires raw == f.frags[k][|f.payload| - base.Pos(k)..]
    ensures Buffered(base, SafeInsert(f.frags, f.mySeq, raw), i) <==> Buffered(base, f.frags, i)
    ensures i >= |f.payload| && Buffered(base, f.frags, i) ==>
      Buffered(base, SafeInsert(f.frags, f.mySeq, raw) - {k}, i)
  {
    var frags': Fragments := SafeInsert(f.frags, f.mySeq, raw);
    var rest: Fragments := frags' - {k};
    if Buffered(base, f.frags, i) {
      var j: Seq32 :| j in f.frags && base.Pos(j) <= i < base.Pos(j) + |f.frags[j]|;
      assert j in frags' && base.Pos(j) <= i < base.Pos(j) + |frags'[j]|;
      var j' := if j == k then f.mySeq else j;
      if i >= |f.payload| { assert j' in rest && base.Pos(j') <= i < base.Pos(j') + |rest[j']|; }
    }
    if Buffered(base, frags', i) {
      var j: Seq32 :| j in frags' && base.Pos(j) <= i < base.Pos(j) + |frags'[j]|;
      var j' := if j == f.mySeq && frags'[j] == raw then k else j;
      assert j' in f.frags && base.Pos(j') <= i < base.Pos(j') + |f.frags[j']|;
    }
  }

  lemma ResliceKeeps(st: ByteStream, received: set<Chunk>, f: Flow, base: Base, k: Seq32)
    requires Consistent(st, received, f, base)
    requires k in f.frags && base.Pos(k) < |f.payload| <= base.Pos(k) + |f.frags[k]|
    ensures Consistent(st, received, Reslice(f, k), base)
  {
    var whole := f.frags[k];
    CompareAt(base, k, f.mySeq);
    var raw := whole[|f.payload| - base.Pos(k)..];
    assert FragmentOk(st, base, k, whole);
    assert FragmentOk(st, base, f.mySeq, raw);
    var frags': Fragments := SafeInsert(f.frags, f.mySeq, raw);
    var f' := Reslice(f, k);
    assert f'.frags == frags' - {k};
    forall i | Covered(received, i) ensures i < |f.payload| || Buffered(base, f'.frags, i) {
      ResliceBuffers(f, base, k, raw, i);
    }
    forall i | Buffered(base, f'.frags, i) ensures Covered(received, i) {
      BufferedWithout(base, frags', k, i);
      ResliceBuffers(f, base, k, raw, i);
    }
  }

  // ------------------------------------------------------------- generic_process

  /** Keys the drain loop still has to pass. */
  function KeysBefore(frags: Fragments, mySeq: Seq32): set<Seq32> {
    set k | k in frags && CompareSeq(k, mySeq) < 0
  }

  lemma ResliceShrinks(f: Flow, k: Seq32)
    requires k in f.frags && CompareSeq(k, f.mySeq) < 0
    ensures var f' := Reslice(f, k);
            || |f'.frags| < |f.frags|
            || (|f'.frags| == |f.frags| && |KeysBefore(f'.frags, f.mySeq)| < |KeysBefore(f.frags, f.mySeq)|)
  {
    var f' := Reslice(f, k);
    assert f'.frags.Keys == f.frags.Keys + {f.mySeq} - {k};
    if f.mySeq in f.frags {
      assert f'.frags.Keys == f.frags.Keys - {k};
      assert |f'.frags.Keys| == |f.frags.Keys| - 1;
    } else {
      assert |f.frags.Keys + {f.mySeq}| == |f.frags.Keys| + 1;
      assert |f'.frags.Keys| == |f.frags.Keys|;
      assert KeysBefore(f'.frags, f.mySeq) == KeysBefore(f.frags, f.mySeq) - {k};
      assert k in KeysBefore(f.frags, f.mySeq);
    }
  }

  predicate IsFirst(base: Base, frags: Fragments, k: Seq32) {
    k in frags && forall j :: j in frags ==> base.Pos(k) <= base.Pos(j)
  }

  /** Where the drain loop's iterator stands: at the first position buffered, or past a flow with nothing due. */
  ghost predicate IteratorAtFirst(f: Flow, base: Base, it: Iterator) {
    match it
    case End => AllAfter(f, base)
    case At(k) => IsFirst(base, f.frags, k)
  }

  ghost predicate Draining(st: ByteStream, received: set<Chunk>, f: Flow, base: Base, it: Iterator) {
    Consistent(st, received, f, base) && IteratorAtFirst(f, base, it)
  }

  /** Erasing the first fragment moves the iterator, round the end of the map, to the first one left. */
  lemma IteratorMoves(f: Flow, base: Base, frags: Fragments, k: Seq32)
    requires f.frags == frags - {k} && IsFirst(base, frags, k)
    ensures IteratorAtFirst(f, base, EraseIterator(frags, k).0)
  {
    var it := EraseIterator(frags, k).0;
    if it.At? {
      forall j | j in f.frags ensures base.Pos(it.key) <= base.Pos(j) {
        assert Distance(k, it.key) <= Distance(k, j);
      }
    }
  }

  lemma FirstAfterInsert(f: Flow, base: Base, k: Seq32, raw: Bytes)
    requires IsFirst(base, f.frags, k) && base.Pos(k) <= base.Pos(f.mySeq)
    ensures IsFirst(base, SafeInsert(f.frags, f.mySeq, raw), k)
  {
  }

  /** What the loop's two comparisons mean for a fragment. */
  lemma DrainCompare(st: ByteStream, received: set<Chunk>, f: Flow, base: Base, k: Seq32)
    requires Consistent(st, received, f, base) && k in f.frags
    ensures CompareSeq(k, f.mySeq) < 0 <==> base.Pos(k) < |f.payload|
    ensures CompareSeq(k, f.mySeq) == 0 <==> base.Pos(k) == |f.payload|
    ensures CompareSeq(AddSeq(k, |f.frags[k]| % SEQ_SPACE), f.mySeq) > 0 ==> base.Pos(k) + |f.frags[k]| >= |f.payload|
    ensures CompareSeq(AddSeq(k, |f.frags[k]| % SEQ_SPACE), f.mySeq) <= 0 ==> base.Pos(k) + |f.frags[k]| <= |f.payload|
    ensures base.Pos(k) <= |f.payload| ==> SubSeq(f.mySeq, k) == |f.payload| - base.Pos(k)
  {
    assert FragmentOk(st, base, k, f.frags[k]);
    CompareAt(base, k, f.mySeq);
    EndAt(base, k, |f.frags[k]|);
    CompareAt(base, AddSeq(k, |f.frags[k]|), f.mySeq);
  }

  lemma DrainReslice(st: ByteStream, received: set<Chunk>, f: Flow, base: Base, k: Seq32)
    requires Draining(st, received, f, base, At(k)) && CompareSeq(k, f.mySeq) < 0
    requires CompareSeq(AddSeq(k, |f.frags[k]| % SEQ_SPACE), f.mySeq) > 0
    ensures SubSeq(f.mySeq, k) <= |f.frags[k]|
    ensures var frags := SafeInsert(f.frags, f.mySeq, EraseFront(f.frags[k], SubSeq(f.mySeq, k)));
            Draining(st, received, Reslice(f, k), base, EraseIterator(frags, k).0)
  {
    var raw := EraseFront(f.frags[k], SubSeq(f.mySeq, k));
    DrainCompare(st, received, f, base, k);
    ResliceKeeps(st, received, f, base, k);
    FirstAfterInsert(f, base, k, raw);
    IteratorMoves(Reslice(f, k), base, SafeInsert(f.frags, f.mySeq, raw), k);
  }

  lemma DrainDrop(st: ByteStream, received: set<Chunk>, f: Flow, base: Base, k: Seq32)
    requires Draining(st, received, f, base, At(k)) && CompareSeq(k, f.mySeq) < 0
    requires CompareSeq(AddSeq(k, |f.frags[k]| % SEQ_SPACE), f.mySeq) <= 0
    ensures Draining(st, received, f.(frags := f.frags - {k}), base, EraseIterator(f.frags, k).0)
  {
    DrainCompare(st, received, f, base, k);
    DropKeeps(st, received, f, base, k);
    IteratorMoves(f.(frags := f.frags - {k}), base, f.frags, k);
  }

  lemma DrainDeliver(st: ByteStream, received: set<Chunk>, f: Flow, base: Base)
    requires Draining(st, received, f, base, At(f.mySeq))
    ensures Draining(st, received, Append(f, f.mySeq), base, EraseIterator(f.frags, f.mySeq).0)
  {
    AppendKeeps(st, received, f, base);
    IteratorMoves(Append(f, f.mySeq), base, f.frags, f.mySeq);
  }

  /** A fragment that starts before the delivery point is cut to start at it, or dropped if all seen. */
  method PassFragment(f: Flow, k: Seq32, ghost st: ByteStream, ghost received: set<Chunk>, ghost base: Base)
    returns (f': Flow, it: Iterator, defined: bool)
    requires k in f.frags && CompareSeq(k, f.mySeq) < 0
    ensures it.At? ==> it.key in f'.frags
    ensures f'.mySeq == f.mySeq && f'.payload == f.payload
    ensures Draining(st, received, f, base, At(k)) ==> defined && Draining(st, received, f', base, it)
    ensures || |f'.frags| < |f.frags|
            || (|f'.frags| == |f.frags| && |KeysBefore(f'.frags, f.mySeq)| < |KeysBefore(f.frags, f.mySeq)|)
  {
    ghost var ok := Draining(st, received, f, base, At(k));
    var fragmentEnd := AddSeq(k, |f.frags[k]| % SEQ_SPACE);
    defined := true;
    if CompareSeq(fragmentEnd, f.mySeq) > 0 {
      var n := SubSeq(f.mySeq, k);
      defined := n <= |f.frags[k]|;
      var raw := EraseFront(f.frags[k], n);
      var frags := SafeInsert(f.frags, f.mySeq, raw);
      var (next, rest) := EraseIterator(frags, k);
      f', it := f.(frags := rest), next;
      assert f' == Reslice(f, k);
      ResliceShrinks(f, k);
      if ok { DrainReslice(st, received, f, base, k); }
    } else {
      var (next, rest) := EraseIterator(f.frags, k);
      f', it := f.(frags := rest), next;
      assert rest.Keys == f.frags.Keys - {k};
      if ok { DrainDrop(st, received, f, base, k); }
    }
  }

  /** A fragment that starts at the delivery point is delivered. */
  method DeliverFragment(f: Flow, k: Seq32, ghost st: ByteStream, ghost received: set<Chunk>, ghost base: Base)
    returns (f': Flow, it: Iterator)
    requires k in f.frags && k == f.mySeq
    ensures f' == Append(f, k) && (it.At? ==> it.key in f'.frags)
    ensures Draining(st, received, f, base, At(k)) ==> Draining(st, received, f', base, it)
    ensures |f'.frags| < |f.frags|
  {
    var (next, rest) := EraseIterator(f.frags, k);
    f', it := Flow((f.mySeq + |f.frags[k]|) % SEQ_SPACE, f.payload + f.frags[k], rest), next;
    assert f' == Append(f, k);
    assert rest.Keys == f.frags.Keys - {k};
    if Draining(st, received, f, base, At(k)) { DrainDeliver(st, received, f, base); }
  }

  /** The loop starts at the delivery point, or finds nothing there. */
  lemma DrainStarts(st: ByteStream, received: set<Chunk>, f: Flow, base: Base)
    requires Consistent(st, received, f, base) && NoneBefore(f, base)
    ensures Draining(st, received, f, base, Find(f.frags, f.mySeq))
  {
  }

  lemma DrainEnds(st: ByteStream, received: set<Chunk>, f: Flow, base: Base, it: Iterator)
    requires Draining(st, received, f, base, it) && (it.At? ==> CompareSeq(it.key, f.mySeq) > 0)
    ensures FlowInv(st, received, f)
  {
    if it.At? { DrainCompare(st, received, f, base, it.key); }
    Rebase(st, received, f, base);
  }

  /**
   The drain loop.  It ends on every input; on a flow consistent with a stream it
   erases only bytes there are, and leaves nothing deliverable, so that FlowInv
   holds again.
   */
  method Drain(f0: Flow, ghost st: ByteStream, ghost received: set<Chunk>, ghost base: Base)
    returns (f: Flow, addedSome: bool, defined: bool)
    ensures Consistent(st, received, f0, base) && NoneBefore(f0, base) ==> defined && FlowInv(st, received, f)
    ensures addedSome <==> f0.mySeq in f0.frags
    ensures !addedSome ==> f == f0
  {
    f, addedSome, defined := f0, false, true;
    var it := Find(f.frags, f.mySeq);
    ghost var ok := Consistent(st, received, f0, base) && NoneBefore(f0, base);
    if ok { DrainStarts(st, received, f, base); }
    while it.At? && CompareSeq(it.key, f.mySeq) <= 0
      invariant it.At? ==> it.key in f.frags
      invariant ok ==> defined && Draining(st, received, f, base, it)
      invariant addedSome || (f == f0 && it == Find(f0.frags, f0.mySeq))
      invariant addedSome ==> f0.mySeq in f0.frags
      decreases |f.frags|, |KeysBefore(f.frags, f.mySeq)|
    {
      if CompareSeq(it.key, f.mySeq) < 0 {
        var inside;
        f, it, inside := PassFragment(f, it.key, st, received, base);
        defined := defined && inside;
      } else {
        f, it := DeliverFragment(f, it.key, st, received, base);
        addedSome := true;
        if f.frags == map[] { break; }
      }
    }
    if ok { DrainEnds(st, received, f, base, it); }
  }

  /** The segment carries bytes of the stream and the flow has followed it. */
  ghost predicate Arrives(st: ByteStream, received: set<Chunk>, f: Flow, seg: Segment, c: Chunk) {
    FlowInv(st, received, f) && Carries(st, seg, c) && InWindow(|f.payload|, c)
  }

  /** The part of a segment that is not delivered yet. */
  function Clipped(mySeq: Seq32, seg: Segment): Segment {
    if CompareSeq(seg.start, mySeq) < 0 then Segment(mySeq, EraseFront(seg.payload, SubSeq(mySeq, seg.start))) else seg
  }

  /** The segment starts before the delivery point and has fewer bytes than lie between. */
  predicate ClipsTooMuch(mySeq: Seq32, seg: Segment) {
    CompareSeq(seg.start, mySeq) < 0 && SubSeq(mySeq, seg.start) > |seg.payload|
  }

  /** Slice a segment that starts before the delivery point. */
  method Clip(mySeq: Seq32, seg: Segment) returns (part: Segment, defined: bool)
    ensures part == Clipped(mySeq, seg)
    ensures defined <==> !ClipsTooMuch(mySeq, seg)
  {
    var start, raw := seg.start, seg.payload;
    defined := true;
    if CompareSeq(start, mySeq) < 0 {
      var diff := SubSeq(mySeq, start);
      defined := diff <= |raw|;
      raw := EraseFront(raw, diff);
      start := mySeq;
    }
    part := Segment(start, raw);
  }

  /** generic_process for a segment with payload: insert what is new of it, then drain. */
  method ProcessSegment(f0: Flow, seg: Segment, ghost st: ByteStream, ghost received: set<Chunk>, ghost c: Chunk)
    returns (f: Flow, addedSome: bool, defined: bool)
    ensures Arrives(st, received, f0, seg, c) ==> (defined <==> !OneShort(st, |f0.payload|, c))
    ensures Arrives(st, received, f0, seg, c) && defined ==> FlowInv(st, received + {c}, f)
    ensures Arrives(st, received, f0, seg, c) && defined ==> (addedSome <==> c.Meets(|f0.payload|))
    ensures !addedSome ==> f.mySeq == f0.mySeq && f.payload == f0.payload
  {
    ghost var ok := Arrives(st, received, f0, seg, c);
    f, addedSome, defined := f0, false, true;
    if ok { SegmentCompare(st, received, f0, seg, c); }
    var chunkEnd := AddSeq(seg.start, |seg.payload| % SEQ_SPACE);
    if CompareSeq(chunkEnd, f.mySeq) >= 0 {
      var part, inside := Clip(f.mySeq, seg);
      if ok && inside {
        ClipKeeps(st, received, f, seg, c);
        ClipMeets(st, received, f, seg, c);
      }
      f := f.(frags := SafeInsert(f.frags, part.start, part.payload));
      f, addedSome, defined := Drain(f, st, received + {c}, Here(f0));
      defined := defined && inside;
    } else if ok {
      StaleKeeps(st, received, f0, c);
    }
  }

  lemma SegmentCompare(st: ByteStream, received: set<Chunk>, f: Flow, seg: Segment, c: Chunk)
    requires Arrives(st, received, f, seg, c)
    ensures CompareSeq(seg.start, f.mySeq) < 0 <==> c.at < |f.payload|
    ensures c.at < |f.payload| ==> SubSeq(f.mySeq, seg.start) == |f.payload| - c.at
    ensures CompareSeq(AddSeq(seg.start, |seg.payload| % SEQ_SPACE), f.mySeq) >= 0
       <==> c.Limit() >= |f.payload| || OneShort(st, |f.payload|, c)
  {
    var n := |f.payload|;
    if c.at < n { ComparedBehind(st, n, c.at); } else { ComparedAhead(st, n, c.at); }
    EndCompare(st, n, c);
  }

  /** The end that is computed is compared as the end, or as the position after it. */
  lemma EndCompare(st: ByteStream, n: nat, c: Chunk)
    requires InWindow(n, c)
    ensures |c.payload| % SEQ_SPACE == |c.payload|
    ensures CompareSeq(AddSeq(st.SeqAt(c.at), |c.payload|), st.SeqAt(n)) >= 0
       <==> c.Limit() >= n || OneShort(st, n, c)
  {
    EndNumber(st, c);
    ComparedNear(st, n, c.Limit() + if st.SeqAt(c.at) + |c.payload| >= ADDITION_MODULO then 1 else 0);
  }

  lemma ComparedNear(st: ByteStream, n: nat, at: nat)
    requires n - SEQ_NUMBER_DIFF < at <= n + SEQ_NUMBER_DIFF
    ensures CompareSeq(st.SeqAt(at), st.SeqAt(n)) >= 0 <==> at >= n
  {
    if at < n { ComparedBehind(st, n, at); } else { ComparedAhead(st, n, at); }
  }

  lemma EndNumber(st: ByteStream, c: Chunk)
    requires |c.payload| < ADDITION_MODULO
    ensures AddSeq(st.SeqAt(c.at), |c.payload|)
         == st.SeqAt(c.Limit() + if st.SeqAt(c.at) + |c.payload| >= ADDITION_MODULO then 1 else 0)
  {
    var start, length := st.SeqAt(c.at), |c.payload|;
    if start + length >= ADDITION_MODULO {
      AddSeqWraps(start, length);
      SeqAtMoves(st, c.at, length + 1);
    } else {
      SeqAtMoves(st, c.at, length);
    }
  }

  /** The number some positions on. */
  lemma SeqAtMoves(st: ByteStream, at: nat, n: nat)
    requires n < SEQ_SPACE
    ensures var sum := st.SeqAt(at) + n; st.SeqAt(at + n) == if sum < SEQ_SPACE then sum else sum - SEQ_SPACE
  {
    ModAdd(st.isn + at, n);
  }

  /** The segments whose slice runs past their end are those whose chunk is one byte short. */
  lemma SlicesTooMuchIsOneShort(st: ByteStream, received: set<Chunk>, f: Flow, seg: Segment, c: Chunk)
    requires Arrives(st, received, f, seg, c)
    ensures |seg.payload| < SEQ_SPACE
    ensures SlicesTooMuch(f.mySeq, seg.start, |seg.payload|) <==> OneShort(st, |f.payload|, c)
  {
    SegmentCompare(st, received, f, seg, c);
    EndCompare(st, |f.payload|, c);
  }

  lemma ClippedIs(st: ByteStream, received: set<Chunk>, f: Flow, seg: Segment, c: Chunk)
    requires Arrives(st, received, f, seg, c) && !ClipsTooMuch(f.mySeq, seg)
    ensures var part := Clipped(f.mySeq, seg);
            && PartOf(f, Here(f), c, part.start, part.payload)
            && |f.payload| <= Here(f).Pos(part.start)
  {
    SegmentCompare(st, received, f, seg, c);
    if c.at >= |f.payload| { DistanceIs(st, |f.payload|, c.at); }
  }

  lemma InsertedAfter(f: Flow, base: Base, k: Seq32, raw: Bytes)
    requires AllAfter(f, base) && |f.payload| <= base.Pos(k)
    ensures NoneBefore(f.(frags := SafeInsert(f.frags, k, raw)), base)
  {
  }

  /** Inserting the part of a segment that is not delivered yet. */
  lemma ClipKeeps(st: ByteStream, received: set<Chunk>, f: Flow, seg: Segment, c: Chunk)
    requires Arrives(st, received, f, seg, c) && !ClipsTooMuch(f.mySeq, seg)
    ensures var part := Clipped(f.mySeq, seg);
            var f' := f.(frags := SafeInsert(f.frags, part.start, part.payload));
            Consistent(st, received + {c}, f', Here(f)) && NoneBefore(f', Here(f))
  {
    ClippedIs(st, received, f, seg, c);
    var part := Clipped(f.mySeq, seg);
    InsertKeeps(st, received, f, Here(f), c, part.start, part.payload);
    InsertedAfter(f, Here(f), part.start, part.payload);
  }

  /** What is inserted starts at the delivery point exactly if the chunk meets it. */
  lemma ClipMeets(st: ByteStream, received: set<Chunk>, f: Flow, seg: Segment, c: Chunk)
    requires Arrives(st, received, f, seg, c) && !ClipsTooMuch(f.mySeq, seg)
    ensures var part := Clipped(f.mySeq, seg);
            f.mySeq in SafeInsert(f.frags, part.start, part.payload) <==> c.Meets(|f.payload|)
  {
    SegmentCompare(st, received, f, seg, c);
    assert f.mySeq !in f.frags;
    if c.at >= |f.payload| {
      DistanceIs(st, |f.payload|, c.at);
    }
  }

  /** A chunk lets more be delivered exactly if it has the byte at the delivery point. */
  lemma DeliversMoreIff(st: ByteStream, received: set<Chunk>, f0: Flow, c: Chunk, f: Flow)
    requires FlowInv(st, received, f0) && FlowInv(st, received + {c}, f)
    ensures f0.payload <= f.payload
    ensures f.payload != f0.payload <==> c.Contains(|f0.payload|)
  {
    var n := |f0.payload|;
    FlowDelivers(st, received, f0);
    FlowDelivers(st, received + {c}, f);
    CoverageGrows(received, c, n);
    CoverageGrows(received, c, |f.payload|);
    assert |f.payload| < n ==> Covered(received, |f.payload|);
    assert n < |f.payload| ==> Covered(received + {c}, n);
  }

  // ------------------------------------------------------------------ whole traces

  function Elements(chunks: seq<Chunk>): set<Chunk> { set c | c in chunks }

  /** How far delivery has come when the i-th chunk arrives. */
  ghost function Before(st: ByteStream, chunks: seq<Chunk>, i: nat): nat
    requires i <= |chunks|
  {
    |LongestPrefix(st, Elements(chunks[..i]))|
  }

  /** The chunks are the stream's, and each arrives within half the number space of the delivery point. */
  ghost predicate Followable(st: ByteStream, chunks: seq<Chunk>) {
    forall i :: 0 <= i < |chunks| ==>
      Agrees(st, chunks[i].at, chunks[i].payload) && InWindow(Before(st, chunks, i), chunks[i])
  }

  /** Any chunks of a stream shorter than half the number space may arrive in any order. */
  lemma ShortStreamIsFollowable(st: ByteStream, chunks: seq<Chunk>)
    requires |st.data| < SEQ_NUMBER_DIFF
    ensures Followable(st, chunks) <==> forall i :: 0 <= i < |chunks| ==> Agrees(st, chunks[i].at, chunks[i].payload)
  {
  }

  /** A stream whose numbers do not reach the modulus in use has no such chunk. */
  lemma UnwrappedIsNeverShort(st: ByteStream, n: nat, c: Chunk)
    requires st.isn + |st.data| < ADDITION_MODULO && Agrees(st, c.at, c.payload)
    ensures !OneShort(st, n, c)
  {
  }

  /** None of the first n chunks wraps and ends one byte before the delivery point. */
  ghost predicate NoneShort(st: ByteStream, chunks: seq<Chunk>, n: nat)
    requires n <= |chunks|
  {
    forall i :: 0 <= i < n ==> !OneShort(st, Before(st, chunks, i), chunks[i])
  }

  lemma ChunkArrives(st: ByteStream, chunks: seq<Chunk>, i: nat, f: Flow)
    requires Followable(st, chunks) && i < |chunks| && FlowInv(st, Elements(chunks[..i]), f)
    ensures Arrives(st, Elements(chunks[..i]), f, Segment(st.SeqAt(chunks[i].at), chunks[i].payload), chunks[i])
    ensures |f.payload| == Before(st, chunks, i)
  {
    FlowDelivers(st, Elements(chunks[..i]), f);
  }

  lemma ElementsGrow(chunks: seq<Chunk>, i: nat)
    requires i < |chunks|
    ensures Elements(chunks[..i + 1]) == Elements(chunks[..i]) + {chunks[i]}
  {
    assert chunks[..i + 1] == chunks[..i] + [chunks[i]];
  }

  /** It happens when a shorter copy of a segment arrives that ended where the numbers wrap. */
  lemma ShortCopyIsOneShort(a: Byte, b: Byte, c: Byte)
    ensures var st := ByteStream(0xFFFF_FFFD, [a, b, c]);
            var chunks := [Chunk(0, [a, b, c]), Chunk(0, [a, b])];
            Followable(st, chunks) && !NoneShort(st, chunks, 2)
  {
    var st := ByteStream(0xFFFF_FFFD, [a, b, c]);
    var chunks := [Chunk(0, [a, b, c]), Chunk(0, [a, b])];
    ShortStreamIsFollowable(st, chunks);
    var first := Elements(chunks[..1]);
    assert chunks[0] in first;
    forall i | 0 <= i < 3 ensures Covered(first, i) { assert chunks[0].Contains(i); }
    PrefixLengthIs(st, first, 0, 3);
    assert Before(st, chunks, 1) == 3;
    assert OneShort(st, 3, chunks[1]);
  }

  /** The first n chunks were followed, or it is known that an erasure went past the end of one of them. */
  ghost predicate Followed(st: ByteStream, chunks: seq<Chunk>, n: nat, f: Flow, defined: bool)
    requires n <= |chunks|
  {
    && (defined ==> FlowInv(st, Elements(chunks[..n]), f))
    && (defined <==> NoneShort(st, chunks, n))
  }

  lemma FollowedNext(st: ByteStream, chunks: seq<Chunk>, i: nat, defined: bool, g: Flow, inside: bool)
    requires i < |chunks| && (defined <==> NoneShort(st, chunks, i))
    requires defined ==> (inside <==> !OneShort(st, Before(st, chunks, i), chunks[i]))
    requires defined && inside ==> FlowInv(st, Elements(chunks[..i]) + {chunks[i]}, g)
    ensures Followed(st, chunks, i + 1, g, defined && inside)
  {
    ElementsGrow(chunks, i);
    NoneShortNext(st, chunks, i);
  }

  lemma NoneShortNext(st: ByteStream, chunks: seq<Chunk>, i: nat)
    requires i < |chunks|
    ensures NoneShort(st, chunks, i + 1)
       <==> NoneShort(st, chunks, i) && !OneShort(st, Before(st, chunks, i), chunks[i])
  {
  }

  method FollowChunk(f: Flow, defined: bool, st: ByteStream, chunks: seq<Chunk>, i: nat)
    returns (f': Flow, defined': bool)
    requires i < |chunks| && Followable(st, chunks) && Followed(st, chunks, i, f, defined)
    ensures Followed(st, chunks, i + 1, f', defined')
  {
    var c, before := chunks[i], Elements(chunks[..i]);
    if defined { ChunkArrives(st, chunks, i, f); }
    var g, _, inside := ProcessSegment(f, Segment(st.SeqAt(c.at), c.payload), st, before, c);
    f', defined' := g, defined && inside;
    FollowedNext(st, chunks, i, defined, g, inside);
  }

  lemma FollowStarts(st: ByteStream, chunks: seq<Chunk>)
    ensures Followed(st, chunks, 0, Flow(st.isn, [], map[]), true)
  {
    assert Elements(chunks[..0]) == {};
    FlowInit(st);
  }

  lemma FollowEnds(st: ByteStream, chunks: seq<Chunk>, f: Flow)
    requires Followed(st, chunks, |chunks|, f, true)
    ensures f.payload == LongestPrefix(st, Elements(chunks)) && f.mySeq == st.SeqAt(|f.payload|)
    ensures !Covered(Elements(chunks), |f.payload|)
  {
    assert chunks[..|chunks|] == chunks;
    FlowDelivers(st, Elements(chunks), f);
  }

  /**
   Follow a whole trace of one direction, of a stream of any length with any first
   number.  All erasures are inside their chunks exactly if no chunk wraps and
   ends one byte before the delivery point when it arrives, and then the output
   is the longest prefix covered.
   */
  method FollowSegments(st: ByteStream, chunks: seq<Chunk>) returns (payload: Bytes, mySeq: Seq32, defined: bool)
    requires Followable(st, chunks)
    ensures defined <==> NoneShort(st, chunks, |chunks|)
    ensures defined ==> payload == LongestPrefix(st, Elements(chunks)) && mySeq == st.SeqAt(|payload|)
    ensures defined ==> !Covered(Elements(chunks), |payload|)
  {
    var f := Flow(st.isn, [], map[]);
    defined := true;
    FollowStarts(st, chunks);
    for i := 0 to |chunks|
      invariant Followed(st, chunks, i, f, defined)
    {
      f, defined := FollowChunk(f, defined, st, chunks, i);
    }
    if defined { FollowEnds(st, chunks, f); }
    payload, mySeq := f.payload, f.mySeq;
  }

  // -------------------------------------------------------------------- TCPStream

  datatype Flag = FIN | SYN | RST | PSH | ACK | URG

  datatype Endpoint = Endpoint(addr: int, port: int)

  datatype Packet = Packet(
    src: Endpoint, seqNo: Seq32, ackNo: Seq32, flags: set<Flag>, hasPayload: bool, payload: Bytes)

  class Stream {
    const client: Endpoint
    var clientFlow: Flow
    var serverFlow: Flow
    var synAckSent: bool
    var finSent: bool

    // what the two sides send, the chunks of it seen so far, and whether every erasure was inside its chunk
    ghost const fromClient: ByteStream
    ghost const fromServer: ByteStream
    ghost var clientChunks: set<Chunk>
    ghost var serverChunks: set<Chunk>
    ghost var defined: bool

    ghost predicate Valid()
      reads this
    {
      && (synAckSent && defined ==>
            && FlowInv(fromClient, clientChunks, clientFlow)
            && FlowInv(fromServer, serverChunks, serverFlow))
      && (!synAckSent ==>
            && defined
            && clientChunks == {} && clientFlow.payload == [] && clientFlow.frags == map[]
            && serverChunks == {} && serverFlow.payload == [] && serverFlow.frags == map[])
    }

    constructor (client: Endpoint, clientSeq: Seq32, ghost fromClient: ByteStream, ghost fromServer: ByteStream)
      ensures Valid() && !synAckSent && !finSent && defined && this.client == client
      ensures this.fromClient == fromClient && this.fromServer == fromServer
    {
      this.client := client;
      clientFlow, serverFlow := Flow(clientSeq, [], map[]), Flow(0, [], map[]);
      synAckSent, finSent := false, false;
      this.fromClient, this.fromServer := fromClient, fromServer;
      clientChunks, serverChunks, defined := {}, {}, true;
    }

    /** What a packet of this connection carries fits the two streams: its payload is the chunk c. */
    ghost predicate Fits(p: Packet, c: Chunk)
      reads this
    {
      if !synAckSent then
        p.flags == {SYN, ACK} ==> fromServer.isn == (p.seqNo + 1) % SEQ_SPACE && fromClient.isn == p.ackNo
      else
        p.hasPayload && defined ==>
          && Carries(if p.src == client then fromClient else fromServer, Segment(p.seqNo, p.payload), c)
          && InWindow(if p.src == client then |clientFlow.payload| else |serverFlow.payload|, c)
    }

    /** The packet wraps and ends one byte before what its side has delivered. */
    ghost predicate Short(p: Packet, c: Chunk)
      reads this
    {
      && synAckSent && p.hasPayload
      && if p.src == client then OneShort(fromClient, |clientFlow.payload|, c)
         else OneShort(fromServer, |serverFlow.payload|, c)
    }

    /** What the side the packet comes from has delivered. */
    function PayloadOf(p: Packet): Bytes
      reads this
    {
      if p.src == client then clientFlow.payload else serverFlow.payload
    }

    method Update(p: Packet, ghost c: Chunk) returns (addedSome: bool)
      requires Valid() && Fits(p, c)
      modifies this
      ensures Valid()
      ensures synAckSent == (old(synAckSent) || p.flags == {SYN, ACK})
      ensures finSent == (old(finSent) || (old(synAckSent) && (FIN in p.flags || RST in p.flags)))
      ensures defined <==> old(defined && !Short(p, c))
      ensures var seen := if old(synAckSent) && p.hasPayload then {c} else {};
              && clientChunks == old(clientChunks) + (if p.src == client then seen else {})
              && serverChunks == old(serverChunks) + (if p.src == client then {} else seen)
      // so as long as that has not happened each side's payload is the longest prefix its chunks cover
      ensures defined ==> clientFlow.payload == LongestPrefix(fromClient, clientChunks)
      ensures defined ==> serverFlow.payload == LongestPrefix(fromServer, serverChunks)
      // the answer is true without a change exactly if the packet ends at the delivery point
      ensures !old(synAckSent) || !p.hasPayload ==> !addedSome
      ensures defined && old(synAckSent) && p.hasPayload ==>
        && (addedSome <==> c.Meets(|old(PayloadOf(p))|))
        && (PayloadOf(p) != old(PayloadOf(p)) <==> c.Contains(|old(PayloadOf(p))|))
        && (addedSome && PayloadOf(p) == old(PayloadOf(p)) <==> c.Limit() == |old(PayloadOf(p))|)
    {
      addedSome := false;
      if !synAckSent {
        if p.flags == {SYN, ACK} {
          serverFlow := serverFlow.(mySeq := (p.seqNo + 1) % SEQ_SPACE);
          clientFlow := clientFlow.(mySeq := p.ackNo);
          synAckSent := true;
          FlowInit(fromClient);
          FlowInit(fromServer);
        }
      } else {
        if FIN in p.flags || RST in p.flags {
          finSent := true;
        }
        if p.hasPayload {
          addedSome := UpdateSide(p.src == client, Segment(p.seqNo, p.payload), c);
        }
      }
      if defined { PayloadsArePrefixes(); }
    }

    /** The segment goes to the flow of the side that sent it. */
    method UpdateSide(byClient: bool, seg: Segment, ghost c: Chunk) returns (addedSome: bool)
      requires Valid() && synAckSent
      requires defined ==>
        && Carries(if byClient then fromClient else fromServer, seg, c)
        && InWindow(|if byClient then clientFlow.payload else serverFlow.payload|, c)
      modifies this`clientFlow, this`serverFlow, this`clientChunks, this`serverChunks, this`defined
      ensures Valid()
      ensures defined <==>
        old(defined) && !OneShort(if byClient then fromClient else fromServer,
                                  |old(if byClient then clientFlow.payload else serverFlow.payload)|, c)
      ensures clientChunks == old(clientChunks) + (if byClient then {c} else {})
      ensures serverChunks == old(serverChunks) + (if byClient then {} else {c})
      ensures defined ==>
        var before := old(if byClient then clientFlow.payload else serverFlow.payload);
        && (addedSome <==> c.Meets(|before|))
        && ((if byClient then clientFlow.payload else serverFlow.payload) != before <==> c.Contains(|before|))
    {
      var inside;
      if byClient {
        ghost var f0 := clientFlow;
        clientFlow, addedSome, inside := ProcessSegment(clientFlow, seg, fromClient, clientChunks, c);
        if defined && inside { DeliversMoreIff(fromClient, clientChunks, f0, c, clientFlow); }
        clientChunks := clientChunks + {c};
      } else {
        ghost var f0 := serverFlow;
        serverFlow, addedSome, inside := ProcessSegment(serverFlow, seg, fromServer, serverChunks, c);
        if defined && inside { DeliversMoreIff(fromServer, serverChunks, f0, c, serverFlow); }
        serverChunks := serverChunks + {c};
      }
      defined := defined && inside;
    }

    lemma PayloadsArePrefixes()
      requires Valid() && defined
      ensures clientFlow.payload == LongestPrefix(fromClient, clientChunks)
      ensures serverFlow.payload == LongestPrefix(fromServer, serverChunks)
    {
      if synAckSent {
        FlowDelivers(fromClient, clientChunks, clientFlow);
        FlowDelivers(fromServer, serverChunks, serverFlow);
      } else {
        PrefixLengthIs(fromClient, {}, 0, 0);
        PrefixLengthIs(fromServer, {}, 0, 0);
      }
    }
  }
}
