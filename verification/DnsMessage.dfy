/**
 DNS messages: a header with four counts and the bytes of the four sections after it.
 Parsing walks the sections once to find where each begins; the accessors decode one
 section each; queries are added by inserting their bytes before the answers.
 */
module DnsMessage {
  import opened DnsNames

  type Half = x: int | 0 <= x < 0x1_0000

  const A: int := 1
  const NS: int := 2
  const CNAME: int := 5
  const PTR: int := 12
  const MX: int := 15
  const AAAA: int := 28
  const DNAM: int := 39

  /** The four bytes of identification and flags, and the four counts. */
  datatype Header = Header(idAndFlags: Bytes, questions: Half, answers: Half, authority: Half, additional: Half)

  datatype Message = Message(header: Header, records: Bytes, answersIdx: nat, authorityIdx: nat, additionalIdx: nat)

  datatype Query = Query(name: Bytes, qtype: Half, qclass: Half)

  datatype Data = V4(address: Bytes) | V6(address: Bytes) | Text(text: Bytes)

  /** A 32-bit number by its halves. */
  datatype Long = Long(high: Half, low: Half)

  datatype Resource = Resource(name: Bytes, data: Data, rtype: Half, rclass: Half, ttl: Long)

  function WordAt(data: Bytes, pos: nat): (w: Half)
    requires pos + 2 <= |data|
  {
    WordIs(data[pos], data[pos + 1]);
    Word(data[pos], data[pos + 1])
  }

  function HighByte(w: nat): nat { if w < 256 then 0 else 1 + HighByte(w - 256) }

  lemma {:induction false} HighAndLow(w: Half)
    ensures HighByte(w) < 256 && Word(HighByte(w), LengthByte(w)) == w
  {
    if w >= 256 {
      HighAndLow(w - 256);
      WordIs(HighByte(w - 256), LengthByte(w));
    }
  }

  /** A 16-bit number in network byte order. */
  function WordBytes(w: Half): (r: Bytes)
    ensures |r| == 2
  {
    HighAndLow(w);
    [HighByte(w), LengthByte(w)]
  }

  /** What a C string holds of some characters: those before the first zero. */
  function CString(text: Bytes): Bytes {
    if text == [] || text[0] == 0 then [] else [text[0]] + CString(text[1..])
  }

  // ------------------------------------------------------------------- walking

  /** The position after n queries. */
  function SkipQueries(data: Bytes, pos: nat, n: nat): (r: Option<nat>)
    ensures r.Some? ==> r.value >= pos && (n > 0 ==> r.value > pos)
    decreases n
  {
    if n == 0 then Some(pos)
    else
      var e := NameEnd(data, pos);
      if e + 4 > |data| then None else SkipQueries(data, e + 4, n - 1)
  }

  /** The position after a record. */
  function RecordEnd(data: Bytes, pos: nat): (r: Option<nat>)
    ensures r.Some? ==> pos < r.value <= |data|
  {
    var e := NameEnd(data, pos);
    if e + 10 > |data| then None
    else
      var next := e + 10 + WordAt(data, e + 8);
      if next > |data| then None else Some(next)
  }

  /** find_section_end: the position after n records. */
  function SkipRecords(data: Bytes, pos: nat, n: nat): (r: Option<nat>)
    ensures r.Some? ==> r.value >= pos && (n > 0 ==> r.value > pos)
    decreases n
  {
    if n == 0 then Some(pos)
    else
      match RecordEnd(data, pos)
      case None => None
      case Some(next) => SkipRecords(data, next, n - 1)
  }

  function ReadHeader(buffer: Bytes): Header
    requires |buffer| >= HEADER
  {
    Header(buffer[..4], WordAt(buffer, 4), WordAt(buffer, 6), WordAt(buffer, 8), WordAt(buffer, 10))
  }

  function WriteHeader(h: Header): Bytes {
    h.idAndFlags + WordBytes(h.questions) + WordBytes(h.answers) + WordBytes(h.authority) + WordBytes(h.additional)
  }

  /** The sections of a message whose records are not empty. */
  function FindSections(h: Header, records: Bytes): Option<Message> {
    match SkipQueries(records, 0, h.questions)
    case None => None
    case Some(answers) =>
      match SkipRecords(records, answers, h.answers)
      case None => None
      case Some(authority) =>
        match SkipRecords(records, authority, h.authority)
        case None => None
        case Some(additional) => Some(Message(h, records, answers, authority, additional))
  }

  /** The constructor from a buffer; None where it throws. */
  function Parse(buffer: Bytes): Option<Message> {
    if |buffer| < HEADER then None
    else if |buffer| == HEADER then Some(Message(ReadHeader(buffer), [], 0, 0, 0))
    else FindSections(ReadHeader(buffer), buffer[HEADER..])
  }

  function Serialize(m: Message): Bytes { WriteHeader(m.header) + m.records }

  method FindSectionEnd(data: Bytes, start: nat, n: nat) returns (r: Option<nat>)
    ensures r == SkipRecords(data, start, n)
  {
    var ptr: nat := start;
    for i := 0 to n
      invariant SkipRecords(data, start, n) == SkipRecords(data, ptr, n - i)
    {
      ptr := FindNameEnd(data, ptr);
      if ptr + 10 > |data| { return None; }
      ptr := ptr + 8;
      var size := WordAt(data, ptr);
      ptr := ptr + 2;
      if ptr + size > |data| { return None; }
      ptr := ptr + size;
    }
    r := Some(ptr);
  }

  method ParseMessage(buffer: Bytes) returns (r: Option<Message>)
    ensures r == Parse(buffer)
  {
    if |buffer| < HEADER { return None; }
    var h, records := ReadHeader(buffer), buffer[HEADER..];
    if records == [] { return Some(Message(h, [], 0, 0, 0)); }
    var ptr: nat := 0;
    for i := 0 to h.questions
      invariant SkipQueries(records, 0, h.questions) == SkipQueries(records, ptr, h.questions - i)
    {
      ptr := FindNameEnd(records, ptr);
      if ptr + 4 > |records| { return None; }
      ptr := ptr + 4;
    }
    var authority := FindSectionEnd(records, ptr, h.answers);
    if authority.None? { return None; }
    var additional := FindSectionEnd(records, authority.value, h.authority);
    if additional.None? { return None; }
    r := Some(Message(h, records, ptr, authority.value, additional.value));
  }

  // ------------------------------------------------------------------ decoding

  function Push<T>(item: T, rest: Option<seq<T>>): Option<seq<T>> {
    if rest.None? then None else Some([item] + rest.value)
  }

  /** queries, from a position to the end of its section. */
  function QueriesFrom(data: Bytes, pos: nat, end: nat): Option<seq<Query>>
    requires end <= |data|
    decreases end - pos
  {
    if pos >= end then Some([])
    else if Compose(data, pos, []).None? then None
    else
      var e := NameEnd(data, pos);
      if e + 4 > end then None
      else Push(Query(CString(Compose(data, pos, []).value), WordAt(data, e), WordAt(data, e + 2)),
                QueriesFrom(data, e + 4, end))
  }

  /** A record's data; None where it is refused. */
  function DecodeData(data: Bytes, pos: nat, size: nat, rtype: int): Option<Data>
    requires pos + size <= |data|
  {
    if rtype == AAAA then (if size != 16 then None else Some(V6(data[pos..pos + 16])))
    else if rtype == A then (if size == 4 then Some(V4(data[pos..pos + 4])) else None)
    else if rtype == NS || rtype == CNAME || rtype == DNAM || rtype == PTR || rtype == MX then
      match Compose(data, pos, [])
      case None => None
      case Some(text) => Some(Text(CString(text)))
    else if size < 255 then Some(Text(CString(data[pos..pos + size])))
    else Some(Text(data[pos..pos + size]))
  }

  /** The record whose name ends at a position, up to the end of its section. */
  function DecodeRecord(data: Bytes, name: Bytes, e: nat, end: nat): Option<Resource>
    requires e + 10 <= end <= |data|
  {
    var rtype, size := WordAt(data, e), WordAt(data, e + 8);
    var skip := if rtype == MX then 2 else 0;
    if size < skip || e + 10 + size > end then None
    else
      match DecodeData(data, e + 10 + skip, size - skip, rtype)
      case None => None
      case Some(d) =>
        Some(Resource(name, d, rtype, WordAt(data, e + 2), Long(WordAt(data, e + 4), WordAt(data, e + 6))))
  }

  datatype Decoded = Decoded(record: Resource, next: nat)

  /** The record at a position, and where the next one starts. */
  function RecordAt(data: Bytes, pos: nat, end: nat): (r: Option<Decoded>)
    requires pos < end <= |data|
    ensures r.Some? ==> r.value.next > pos
  {
    if Compose(data, pos, []).None? then None
    else
      var e := NameEnd(data, pos);
      if e + 10 > end then None
      else
        match DecodeRecord(data, CString(Compose(data, pos, []).value), e, end)
        case None => None
        case Some(record) => Some(Decoded(record, e + 10 + WordAt(data, e + 8)))
  }

  /** convert_records */
  function RecordsFrom(data: Bytes, pos: nat, end: nat): Option<seq<Resource>>
    requires end <= |data|
    decreases end - pos
  {
    if pos >= end then Some([])
    else
      match RecordAt(data, pos, end)
      case None => None
      case Some(d) => Push(d.record, RecordsFrom(data, d.next, end))
  }

  predicate InOrder(m: Message) {
    m.answersIdx <= m.authorityIdx <= m.additionalIdx <= |m.records|
  }

  function Queries(m: Message): Option<seq<Query>>
    requires InOrder(m)
  {
    QueriesFrom(m.records, 0, m.answersIdx)
  }

  function Answers(m: Message): Option<seq<Resource>>
    requires InOrder(m)
  {
    RecordsFrom(m.records, m.answersIdx, m.authorityIdx)
  }

  function Authority(m: Message): Option<seq<Resource>>
    requires InOrder(m)
  {
    RecordsFrom(m.records, m.authorityIdx, m.additionalIdx)
  }

  function Prefixed<T>(front: seq<T>, rest: Option<seq<T>>): Option<seq<T>> {
    if rest.None? then None else Some(front + rest.value)
  }

  lemma PrefixedPush<T>(front: seq<T>, item: T, rest: Option<seq<T>>)
    ensures Prefixed(front, Push(item, rest)) == Prefixed(front + [item], rest)
  {
    if rest.Some? { assert front + ([item] + rest.value) == front + [item] + rest.value; }
  }

  lemma PrefixedEnds<T>(front: seq<T>, rest: Option<seq<T>>)
    ensures Prefixed([], rest) == rest && Prefixed(front, Some([])) == Some(front)
  {
    if rest.Some? { assert [] + rest.value == rest.value; }
    assert front + [] == front;
  }

  lemma {:induction false} CStringStops(text: Bytes, rest: Bytes)
    ensures CString(text + [0] + rest) == CString(text)
  {
    if text != [] {
      CStringStops(text[1..], rest);
      assert (text + [0] + rest)[1..] == text[1..] + [0] + rest;
    }
  }

  /** The name at a position as a string, and where it ends. */
  method ReadName(data: Bytes, pos: nat, buffer: array<Byte>) returns (name: Bytes, end: Option<nat>)
    requires buffer.Length >= 256
    modifies buffer
    ensures end.Some? <==> Compose(data, pos, []).Some?
    ensures end.Some? ==> end.value == NameEnd(data, pos) && name == CString(Compose(data, pos, []).value)
  {
    end := ComposeName(data, pos, buffer);
    name := [];
    if end.Some? {
      name := CString(buffer[..]);
      ghost var text := Compose(data, pos, []).value;
      assert buffer[..] == text + [0] + buffer[|text| + 1..];
      CStringStops(text, buffer[|text| + 1..]);
    }
  }

  method ReadQueries(m: Message) returns (r: Option<seq<Query>>)
    requires InOrder(m)
    ensures r == Queries(m)
  {
    var output: seq<Query> := [];
    var ptr: nat, end := 0, m.answersIdx;
    var buffer := new Byte[256];
    PrefixedEnds([], Queries(m));
    while ptr < end
      invariant Queries(m) == Prefixed(output, QueriesFrom(m.records, ptr, end))
      decreases end - ptr
    {
      var name, e := ReadName(m.records, ptr, buffer);
      if e.None? || e.value + 4 > end { return None; }
      var q := Query(name, WordAt(m.records, e.value), WordAt(m.records, e.value + 2));
      PrefixedPush(output, q, QueriesFrom(m.records, e.value + 4, end));
      output := output + [q];
      ptr := e.value + 4;
    }
    PrefixedEnds(output, Queries(m));
    r := Some(output);
  }

  /** The switch on the record's type. */
  method ConvertData(data: Bytes, at: nat, size: nat, rtype: int) returns (d: Option<Data>)
    requires at + size <= |data|
    ensures d == DecodeData(data, at, size, rtype)
  {
    if rtype == AAAA {
      if size != 16 { return None; }
      d := Some(V6(data[at..at + size]));
    } else if rtype == A {
      if size != 4 { return None; }
      d := Some(V4(data[at..at + size]));
    } else if rtype == NS || rtype == CNAME || rtype == DNAM || rtype == PTR || rtype == MX {
      var buffer := new Byte[256];
      var text, end := ReadName(data, at, buffer);
      d := if end.None? then None else Some(Text(text));
    } else if size < 255 {
      d := Some(Text(CString(data[at..at + size])));
    } else {
      d := Some(Text(data[at..at + size]));
    }
  }

  method ConvertRecord(data: Bytes, ptr: nat, end: nat, dname: array<Byte>) returns (r: Option<Decoded>)
    requires ptr < end <= |data| && dname.Length >= 256
    modifies dname
    ensures r == RecordAt(data, ptr, end)
  {
    var name, e := ReadName(data, ptr, dname);
    if e.None? || e.value + 10 > end { return None; }
    var at := e.value;
    var rtype, rclass := WordAt(data, at), WordAt(data, at + 2);
    var ttl := Long(WordAt(data, at + 4), WordAt(data, at + 6));
    var size: nat := WordAt(data, at + 8);
    at := at + 10;
    if rtype == MX {
      if size < 2 { return None; }
      at, size := at + 2, size - 2;
    }
    if at + size > end { return None; }
    var d := ConvertData(data, at, size, rtype);
    if d.None? { return None; }
    r := Some(Decoded(Resource(name, d.value, rtype, rclass, ttl), at + size));
  }

  method ConvertRecords(data: Bytes, start: nat, end: nat) returns (r: Option<seq<Resource>>)
    requires end <= |data|
    ensures r == RecordsFrom(data, start, end)
  {
    var res: seq<Resource> := [];
    var ptr: nat := start;
    var dname := new Byte[256];
    ghost var total := RecordsFrom(data, start, end);
    PrefixedEnds([], total);
    while ptr < end
      invariant total == Prefixed(res, RecordsFrom(data, ptr, end))
      decreases end - ptr
    {
      var d := ConvertRecord(data, ptr, end, dname);
      if d.None? { return None; }
      PrefixedPush(res, d.value.record, RecordsFrom(data, d.value.next, end));
      res := res + [d.value.record];
      ptr := d.value.next;
    }
    PrefixedEnds(res, total);
    r := Some(res);
  }

  // -------------------------------------------------- accessors return what was counted

  lemma {:induction false} QueriesCount(data: Bytes, pos: nat, n: nat, end: nat)
    requires SkipQueries(data, pos, n) == Some(end) && end <= |data|
    ensures var q := QueriesFrom(data, pos, end); q.Some? ==> |q.value| == n
    decreases n
  {
    if n > 0 {
      QueriesCount(data, NameEnd(data, pos) + 4, n - 1, end);
    }
  }

  /** A record decoded ends where skipping it ends. */
  lemma RecordAtEnd(data: Bytes, pos: nat, end: nat)
    requires pos < end <= |data|
    ensures RecordAt(data, pos, end).Some? ==> RecordEnd(data, pos) == Some(RecordAt(data, pos, end).value.next)
  {
  }

  lemma {:induction false} RecordsCount(data: Bytes, pos: nat, n: nat, end: nat)
    requires SkipRecords(data, pos, n) == Some(end) && end <= |data|
    ensures var q := RecordsFrom(data, pos, end); q.Some? ==> |q.value| == n
    decreases n
  {
    if n > 0 {
      RecordAtEnd(data, pos, end);
      RecordsCount(data, RecordEnd(data, pos).value, n - 1, end);
    }
  }

  // ------------------------------------------------- when the accessors succeed

  /** The data is a name and nothing else. */
  predicate HoldsName(rtype: int) { rtype == NS || rtype == CNAME || rtype == PTR || rtype == DNAM }

  /** What the record's type asks of its data. */
  ghost predicate DataFits(data: Bytes, rtype: int, at: nat, size: nat) {
    && (rtype == A ==> size == 4)
    && (rtype == AAAA ==> size == 16)
    && (rtype == MX ==> size >= 2 && Compose(data, at + 2, []).Some?)
    && (HoldsName(rtype) ==> Compose(data, at, []).Some?)
  }

  ghost predicate TextIs(data: Bytes, pos: nat, text: Bytes) {
    Compose(data, pos, []).Some? && text == CString(Compose(data, pos, []).value)
  }

  /** What is read of a record's data. */
  ghost predicate DataIs(data: Bytes, rtype: int, at: nat, size: nat, d: Data)
    requires at + size <= |data|
  {
    if rtype == A then d == V4(data[at..at + size])
    else if rtype == AAAA then d == V6(data[at..at + size])
    else if rtype == MX then d.Text? && TextIs(data, at + 2, d.text)
    else if HoldsName(rtype) then d.Text? && TextIs(data, at, d.text)
    else d == Text(if size < 255 then CString(data[at..at + size]) else data[at..at + size])
  }

  /** The record that starts at a position has a name and data that fits its type. */
  ghost predicate RecordFits(data: Bytes, pos: nat) {
    var e := NameEnd(data, pos);
    && Compose(data, pos, []).Some? && e + 10 <= |data|
    && DataFits(data, WordAt(data, e), e + 10, WordAt(data, e + 8))
  }

  /** The resource is the record that starts at the position. */
  ghost predicate RecordIs(data: Bytes, pos: nat, r: Resource) {
    var e := NameEnd(data, pos);
    && TextIs(data, pos, r.name)
    && e + 10 <= |data| && e + 10 + WordAt(data, e + 8) <= |data|
    && r.rtype == WordAt(data, e) && r.rclass == WordAt(data, e + 2)
    && r.ttl == Long(WordAt(data, e + 4), WordAt(data, e + 6))
    && DataIs(data, r.rtype, e + 10, WordAt(data, e + 8), r.data)
  }

  /** Data is decoded exactly if it fits, and then as it stands. */
  lemma DecodeDataIff(data: Bytes, rtype: int, at: nat, size: nat, skip: nat)
    requires at + size <= |data| && skip == (if rtype == MX then 2 else 0) && skip <= size
    ensures var d := DecodeData(data, at + skip, size - skip, rtype);
            (d.Some? <==> DataFits(data, rtype, at, size)) && (d.Some? ==> DataIs(data, rtype, at, size, d.value))
  {
  }

  lemma DecodeRecordIff(data: Bytes, name: Bytes, e: nat, end: nat)
    requires e + 10 <= end <= |data| && e + 10 + WordAt(data, e + 8) <= end
    ensures var rtype, size, r := WordAt(data, e), WordAt(data, e + 8), DecodeRecord(data, name, e, end);
            && (r.Some? <==> DataFits(data, rtype, e + 10, size))
            && (r.Some? ==>
                  && DataIs(data, rtype, e + 10, size, r.value.data)
                  && r.value == Resource(name, r.value.data, rtype, WordAt(data, e + 2),
                                         Long(WordAt(data, e + 4), WordAt(data, e + 6))))
  {
    var rtype, size := WordAt(data, e), WordAt(data, e + 8);
    var skip := if rtype == MX then 2 else 0;
    if skip <= size { DecodeDataIff(data, rtype, e + 10, size, skip); }
  }

  /** A record that ends in time is decoded exactly if it fits, and then as it stands. */
  lemma RecordAtIff(data: Bytes, pos: nat, end: nat)
    requires RecordEnd(data, pos).Some? && RecordEnd(data, pos).value <= end <= |data|
    ensures RecordAt(data, pos, end).Some? <==> RecordFits(data, pos)
    ensures RecordAt(data, pos, end).Some? ==>
      RecordIs(data, pos, RecordAt(data, pos, end).value.record)
      && RecordAt(data, pos, end).value.next == RecordEnd(data, pos).value
  {
    if Compose(data, pos, []).Some? {
      DecodeRecordIff(data, CString(Compose(data, pos, []).value), NameEnd(data, pos), end);
    }
  }

  /** Of the n records that are skipped from a position on, all fit. */
  ghost predicate RecordsFit(data: Bytes, pos: nat, n: nat)
    requires SkipRecords(data, pos, n).Some?
    decreases n
  {
    n > 0 ==> RecordFits(data, pos) && RecordsFit(data, RecordEnd(data, pos).value, n - 1)
  }

  /** The resources are the records that are skipped from a position on, in order. */
  ghost predicate RecordsAre(data: Bytes, pos: nat, rs: seq<Resource>)
    decreases |rs|
  {
    rs == [] || (
      && RecordIs(data, pos, rs[0])
      && RecordEnd(data, pos).Some? && RecordsAre(data, RecordEnd(data, pos).value, rs[1..]))
  }

  /** convert_records succeeds exactly if every record of the section fits, and returns them all as they stand. */
  lemma {:induction false} RecordsSucceedIff(data: Bytes, pos: nat, n: nat, end: nat)
    requires SkipRecords(data, pos, n) == Some(end) && end <= |data|
    ensures RecordsFrom(data, pos, end).Some? <==> RecordsFit(data, pos, n)
    ensures var q := RecordsFrom(data, pos, end); q.Some? ==> |q.value| == n && RecordsAre(data, pos, q.value)
    decreases n
  {
    if n > 0 {
      var next := RecordEnd(data, pos).value;
      RecordsSucceedIff(data, next, n - 1, end);
      RecordAtIff(data, pos, end);
      var all := RecordsFrom(data, pos, end);
      if all.Some? { assert all.value[1..] == RecordsFrom(data, next, end).value; }
    }
  }

  /** answers() and authority() of an accepted message succeed exactly if the records of their section fit. */
  lemma AccessorsSucceedIff(buffer: Bytes, m: Message)
    requires |buffer| > HEADER && Parse(buffer) == Some(m)
    ensures InOrder(m) && SkipRecords(m.records, m.answersIdx, m.header.answers) == Some(m.authorityIdx)
    ensures SkipRecords(m.records, m.authorityIdx, m.header.authority) == Some(m.additionalIdx)
    ensures Answers(m).Some? <==> RecordsFit(m.records, m.answersIdx, m.header.answers)
    ensures Answers(m).Some? ==> RecordsAre(m.records, m.answersIdx, Answers(m).value)
    ensures Authority(m).Some? <==> RecordsFit(m.records, m.authorityIdx, m.header.authority)
    ensures Authority(m).Some? ==> RecordsAre(m.records, m.authorityIdx, Authority(m).value)
  {
    ParsedInOrder(buffer);
    RecordsSucceedIff(m.records, m.answersIdx, m.header.answers, m.authorityIdx);
    RecordsSucceedIff(m.records, m.authorityIdx, m.header.authority, m.additionalIdx);
  }

  lemma {:induction false} SkipQueriesInside(data: Bytes, pos: nat, n: nat)
    requires SkipQueries(data, pos, n).Some? && pos <= |data|
    ensures SkipQueries(data, pos, n).value <= |data|
    decreases n
  {
    if n > 0 { SkipQueriesInside(data, NameEnd(data, pos) + 4, n - 1); }
  }

  lemma {:induction false} SkipRecordsInside(data: Bytes, pos: nat, n: nat)
    requires SkipRecords(data, pos, n).Some? && pos <= |data|
    ensures SkipRecords(data, pos, n).value <= |data|
    decreases n
  {
    if n > 0 { SkipRecordsInside(data, RecordEnd(data, pos).value, n - 1); }
  }

  lemma ParsedInOrder(buffer: Bytes)
    requires Parse(buffer).Some?
    ensures InOrder(Parse(buffer).value)
  {
    if |buffer| > HEADER {
      var h, records := ReadHeader(buffer), buffer[HEADER..];
      SkipQueriesInside(records, 0, h.questions);
      var answers := SkipQueries(records, 0, h.questions).value;
      SkipRecordsInside(records, answers, h.answers);
      SkipRecordsInside(records, SkipRecords(records, answers, h.answers).value, h.authority);
    }
  }

  ghost predicate CountsHold(m: Message) {
    && InOrder(m)
    && (Queries(m).Some? ==> |Queries(m).value| == m.header.questions)
    && (Answers(m).Some? ==> |Answers(m).value| == m.header.answers)
    && (Authority(m).Some? ==> |Authority(m).value| == m.header.authority)
  }

  /** Each accessor of an accepted message that has records returns as many entries as the header says, or fails. */
  lemma AccessorsReturnTheCounts(buffer: Bytes, m: Message)
    requires |buffer| > HEADER && Parse(buffer) == Some(m)
    ensures CountsHold(m)
  {
    ParsedInOrder(buffer);
    QueriesCount(m.records, 0, m.header.questions, m.answersIdx);
    RecordsCount(m.records, m.answersIdx, m.header.answers, m.authorityIdx);
    RecordsCount(m.records, m.authorityIdx, m.header.authority, m.additionalIdx);
  }

  /** A message that is only a header is accepted whatever its counts, and then they hold only if all three are zero. */
  lemma BareHeaderCounts(buffer: Bytes)
    requires |buffer| == HEADER
    ensures Parse(buffer).Some?
    ensures var h := ReadHeader(buffer);
      CountsHold(Parse(buffer).value) <==> h.questions == 0 && h.answers == 0 && h.authority == 0
  {
    var m := Parse(buffer).value;
    assert Queries(m) == Some([]) && Answers(m) == Some([]) && Authority(m) == Some([]);
  }

  // ------------------------------------------------------ what messages are accepted

  /** Two octets, most significant first. */
  predicate IsWord(data: Bytes, pos: nat, w: int) {
    pos + 2 <= |data| && w == 256 * data[pos] as int + data[pos + 1] as int
  }

  lemma WordAtIs(data: Bytes, pos: nat)
    requires pos + 2 <= |data|
    ensures IsWord(data, pos, WordAt(data, pos))
  {
    WordIs(data[pos], data[pos + 1]);
  }

  /** The header of section 4.1.1 of RFC 1035: identification and flags, and then the four counts. */
  ghost predicate HeaderIs(buffer: Bytes, h: Header) {
    && |buffer| >= 12 && h.idAndFlags == buffer[..4]
    && IsWord(buffer, 4, h.questions) && IsWord(buffer, 6, h.answers)
    && IsWord(buffer, 8, h.authority) && IsWord(buffer, 10, h.additional)
  }

  lemma ReadHeaderIs(buffer: Bytes, h: Header)
    requires |buffer| >= 12
    ensures HeaderIs(buffer, h) <==> h == ReadHeader(buffer)
  {
    WordAtIs(buffer, 4);
    WordAtIs(buffer, 6);
    WordAtIs(buffer, 8);
    WordAtIs(buffer, 10);
  }

  /** A question stands from a to b: its name, and four octets. */
  predicate QuestionFrom(data: Bytes, a: nat, b: nat) { NameEnd(data, a) + 4 == b <= |data| }

  /** A record stands from a to b: its name, ten octets of which the last two are a length, and as many of data. */
  predicate RecordFrom(data: Bytes, a: nat, b: nat) {
    var e := NameEnd(data, a);
    e + 10 <= b <= |data| && IsWord(data, e + 8, b - e - 10)
  }

  lemma RecordEndIff(data: Bytes, a: nat, b: nat)
    ensures RecordFrom(data, a, b) <==> RecordEnd(data, a) == Some(b)
  {
    var e := NameEnd(data, a);
    if e + 10 <= |data| { WordAtIs(data, e + 8); }
  }

  ghost predicate Questions(data: Bytes, ps: seq<nat>) {
    forall i :: 0 <= i < |ps| - 1 ==> QuestionFrom(data, ps[i], ps[i + 1])
  }

  ghost predicate Records(data: Bytes, ps: seq<nat>) {
    forall i :: 0 <= i < |ps| - 1 ==> RecordFrom(data, ps[i], ps[i + 1])
  }

  lemma {:induction false} QuestionsAreSkipped(data: Bytes, ps: seq<nat>)
    requires ps != [] && Questions(data, ps)
    ensures SkipQueries(data, ps[0], |ps| - 1) == Some(ps[|ps| - 1])
    decreases |ps|
  {
    if |ps| > 1 {
      assert QuestionFrom(data, ps[0], ps[1]);
      QuestionsTail(data, ps);
      QuestionsAreSkipped(data, ps[1..]);
    }
  }

  lemma QuestionsTail(data: Bytes, ps: seq<nat>)
    requires |ps| > 1
    ensures Questions(data, ps) <==> QuestionFrom(data, ps[0], ps[1]) && Questions(data, ps[1..])
  {
    var rest := ps[1..];
    if QuestionFrom(data, ps[0], ps[1]) && Questions(data, rest) {
      forall i | 0 <= i < |ps| - 1 ensures QuestionFrom(data, ps[i], ps[i + 1]) {
        if i > 0 { assert QuestionFrom(data, rest[i - 1], rest[i]); }
      }
    }
    if Questions(data, ps) {
      forall i | 0 <= i < |rest| - 1 ensures QuestionFrom(data, rest[i], rest[i + 1]) {
        assert QuestionFrom(data, ps[i + 1], ps[i + 2]);
      }
    }
  }

  lemma RecordsTail(data: Bytes, ps: seq<nat>)
    requires |ps| > 1
    ensures Records(data, ps) <==> RecordFrom(data, ps[0], ps[1]) && Records(data, ps[1..])
  {
    var rest := ps[1..];
    if RecordFrom(data, ps[0], ps[1]) && Records(data, rest) {
      forall i | 0 <= i < |ps| - 1 ensures RecordFrom(data, ps[i], ps[i + 1]) {
        if i > 0 { assert RecordFrom(data, rest[i - 1], rest[i]); }
      }
    }
    if Records(data, ps) {
      forall i | 0 <= i < |rest| - 1 ensures RecordFrom(data, rest[i], rest[i + 1]) {
        assert RecordFrom(data, ps[i + 1], ps[i + 2]);
      }
    }
  }

  lemma {:induction false} RecordsAreSkipped(data: Bytes, ps: seq<nat>)
    requires ps != [] && Records(data, ps)
    ensures SkipRecords(data, ps[0], |ps| - 1) == Some(ps[|ps| - 1])
    decreases |ps|
  {
    if |ps| > 1 {
      RecordsTail(data, ps);
      RecordEndIff(data, ps[0], ps[1]);
      RecordsAreSkipped(data, ps[1..]);
    }
  }

  /** Positions from start to end, one more than entries. */
  predicate Spans(ps: seq<nat>, start: nat, n: nat, end: nat) {
    |ps| == n + 1 && ps[0] == start && ps[n] == end
  }

  lemma SpansCons(start: nat, rest: seq<nat>, next: nat, n: nat, end: nat)
    requires Spans(rest, next, n, end)
    ensures Spans([start] + rest, start, n + 1, end) && ([start] + rest)[1..] == rest
  {
  }

  lemma {:induction false} SkippedQuestions(data: Bytes, pos: nat, n: nat, end: nat) returns (ps: seq<nat>)
    requires SkipQueries(data, pos, n) == Some(end)
    ensures Spans(ps, pos, n, end) && Questions(data, ps)
    decreases n
  {
    if n == 0 {
      ps := [pos];
    } else {
      var next := NameEnd(data, pos) + 4;
      var rest := SkippedQuestions(data, next, n - 1, end);
      SpansCons(pos, rest, next, n - 1, end);
      ps := [pos] + rest;
      QuestionsTail(data, ps);
    }
  }

  lemma {:induction false} SkippedRecords(data: Bytes, pos: nat, n: nat, end: nat) returns (ps: seq<nat>)
    requires SkipRecords(data, pos, n) == Some(end)
    ensures Spans(ps, pos, n, end) && Records(data, ps)
    decreases n
  {
    if n == 0 {
      ps := [pos];
    } else {
      var next := RecordEnd(data, pos).value;
      RecordEndIff(data, pos, next);
      var rest := SkippedRecords(data, next, n - 1, end);
      SpansCons(pos, rest, next, n - 1, end);
      ps := [pos] + rest;
      RecordsTail(data, ps);
    }
  }

  /** The questions, answers and authority records stand one after the other from the beginning of the data. */
  ghost predicate LaidOut(m: Message, qs: seq<nat>, answers: seq<nat>, authority: seq<nat>) {
    && Spans(qs, 0, m.header.questions, m.answersIdx) && Questions(m.records, qs)
    && Spans(answers, m.answersIdx, m.header.answers, m.authorityIdx) && Records(m.records, answers)
    && Spans(authority, m.authorityIdx, m.header.authority, m.additionalIdx) && Records(m.records, authority)
  }

  /** The message that the octets of a buffer are. */
  ghost predicate MessageIs(buffer: Bytes, m: Message) {
    && HeaderIs(buffer, m.header) && m.records == buffer[12..]
    && if m.records == [] then m.answersIdx == m.authorityIdx == m.additionalIdx == 0
       else exists qs, answers, authority :: LaidOut(m, qs, answers, authority)
  }

  lemma LaidOutIsFound(m: Message, qs: seq<nat>, answers: seq<nat>, authority: seq<nat>)
    requires LaidOut(m, qs, answers, authority)
    ensures FindSections(m.header, m.records) == Some(m)
  {
    QuestionsAreSkipped(m.records, qs);
    RecordsAreSkipped(m.records, answers);
    RecordsAreSkipped(m.records, authority);
  }

  lemma FoundIsLaidOut(m: Message) returns (qs: seq<nat>, answers: seq<nat>, authority: seq<nat>)
    requires FindSections(m.header, m.records) == Some(m)
    ensures LaidOut(m, qs, answers, authority)
  {
    qs := SkippedQuestions(m.records, 0, m.header.questions, m.answersIdx);
    answers := SkippedRecords(m.records, m.answersIdx, m.header.answers, m.authorityIdx);
    authority := SkippedRecords(m.records, m.authorityIdx, m.header.authority, m.additionalIdx);
  }

  /** A buffer is accepted as a message exactly if it is laid out as that message. */
  lemma ParsesIff(buffer: Bytes, m: Message)
    ensures Parse(buffer) == Some(m) <==> MessageIs(buffer, m)
  {
    if |buffer| >= 12 { ReadHeaderIs(buffer, m.header); }
    if |buffer| > 12 {
      if Parse(buffer) == Some(m) {
        var qs, answers, authority := FoundIsLaidOut(m);
      }
      if MessageIs(buffer, m) {
        var qs, answers, authority :| LaidOut(m, qs, answers, authority);
        LaidOutIsFound(m, qs, answers, authority);
      }
    }
  }

  // --------------------------------------------------------- what queries() returns

  /** The query is the question that stands at a position. */
  ghost predicate QueryIs(data: Bytes, pos: nat, q: Query) {
    var e := NameEnd(data, pos);
    TextIs(data, pos, q.name) && IsWord(data, e, q.qtype) && IsWord(data, e + 2, q.qclass)
  }

  /** All of the n names that are skipped from a position on compose. */
  ghost predicate NamesCompose(data: Bytes, pos: nat, n: nat)
    decreases n
  {
    n > 0 ==> Compose(data, pos, []).Some? && NamesCompose(data, NameEnd(data, pos) + 4, n - 1)
  }

  ghost predicate QueriesAre(data: Bytes, pos: nat, qs: seq<Query>)
    decreases |qs|
  {
    qs == [] || (QueryIs(data, pos, qs[0]) && QueriesAre(data, NameEnd(data, pos) + 4, qs[1..]))
  }

  /** One question of a section, and the rest. */
  lemma QueriesStep(data: Bytes, pos: nat, end: nat, next: nat) returns (q: Query)
    requires pos < end <= |data| && next == NameEnd(data, pos) + 4 <= end && Compose(data, pos, []).Some?
    ensures QueriesFrom(data, pos, end) == Push(q, QueriesFrom(data, next, end)) && QueryIs(data, pos, q)
  {
    var e := next - 4;
    WordAtIs(data, e);
    WordAtIs(data, e + 2);
    q := Query(CString(Compose(data, pos, []).value), WordAt(data, e), WordAt(data, e + 2));
  }

  lemma {:induction false} QueriesFromIff(data: Bytes, pos: nat, n: nat, end: nat)
    requires SkipQueries(data, pos, n) == Some(end) && end <= |data|
    ensures var q := QueriesFrom(data, pos, end);
            && (q.Some? <==> NamesCompose(data, pos, n))
            && (q.Some? ==> |q.value| == n && QueriesAre(data, pos, q.value))
    decreases n
  {
    if n > 0 {
      var next := NameEnd(data, pos) + 4;
      QueriesFromIff(data, next, n - 1, end);
      if Compose(data, pos, []).Some? {
        var q := QueriesStep(data, pos, end, next);
        var rest := QueriesFrom(data, next, end);
        if rest.Some? { assert ([q] + rest.value)[1..] == rest.value; }
      }
    }
  }

  /** queries() of an accepted message succeeds exactly if all names compose, and returns the questions there. */
  lemma QueriesSucceedIff(buffer: Bytes, m: Message)
    requires |buffer| > HEADER && Parse(buffer) == Some(m)
    ensures InOrder(m)
    ensures Queries(m).Some? <==> NamesCompose(m.records, 0, m.header.questions)
    ensures Queries(m).Some? ==>
      |Queries(m).value| == m.header.questions && QueriesAre(m.records, 0, Queries(m).value)
  {
    ParsedInOrder(buffer);
    QueriesFromIff(m.records, 0, m.header.questions, m.answersIdx);
  }

  // ----------------------------------------------------------------- adding queries

  const EmptyMessage := Message(Header([0, 0, 0, 0], 0, 0, 0, 0), [], 0, 0, 0)

  predicate NoRecords(m: Message) {
    m.header.answers == 0 && m.header.authority == 0 && m.header.additional == 0
  }

  /** A 16-bit count wraps. */
  function Next(count: Half): Half { if count == 0xffff then 0 else count + 1 }

  function EncodeQuery(q: Query): Bytes {
    Encode(q.name) + WordBytes(q.qtype) + WordBytes(q.qclass)
  }

  /** add_query, while no section holds records whose names would have to be moved. */
  function AddQuery(m: Message, q: Query): Message
    requires InOrder(m) && NoRecords(m)
  {
    AddBytes(m, EncodeQuery(q))
  }

  function AddBytes(m: Message, bytes: Bytes): Message
    requires InOrder(m) && NoRecords(m)
  {
    Message(m.header.(questions := Next(m.header.questions)),
            m.records[..m.answersIdx] + bytes + m.records[m.answersIdx..],
            m.answersIdx + |bytes|, m.authorityIdx + |bytes|, m.additionalIdx + |bytes|)
  }

  class Dns {
    var header: Header
    var records: Bytes
    var answersIdx: nat
    var authorityIdx: nat
    var additionalIdx: nat

    function View(): Message
      reads this
    {
      Message(header, records, answersIdx, authorityIdx, additionalIdx)
    }

    constructor ()
      ensures View() == EmptyMessage
    {
      header, records := Header([0, 0, 0, 0], 0, 0, 0, 0), [];
      answersIdx, authorityIdx, additionalIdx := 0, 0, 0;
    }

    method Add(q: Query)
      requires InOrder(View()) && NoRecords(View())
      modifies this
      ensures View() == AddQuery(old(View()), q)
    {
      var bytes := EncodeDomainName(q.name);
      bytes := bytes + WordBytes(q.qtype);
      bytes := bytes + WordBytes(q.qclass);
      var offset, threshold := |bytes|, answersIdx;
      answersIdx := answersIdx + offset;
      authorityIdx := authorityIdx + offset;
      additionalIdx := additionalIdx + offset;
      records := records[..threshold] + bytes + records[threshold..];
      header := header.(questions := Next(header.questions));
    }
  }

  function Encodings(qs: seq<Query>): seq<Bytes> {
    seq(|qs|, i requires 0 <= i < |qs| => EncodeQuery(qs[i]))
  }

  /** A message to which encoded queries were added one after the other. */
  ghost function BuiltFrom(parts: seq<Bytes>): (m: Message)
    ensures InOrder(m) && NoRecords(m) && m.answersIdx == m.authorityIdx == m.additionalIdx == |m.records|
    ensures |m.header.idAndFlags| == 4
  {
    if parts == [] then EmptyMessage else AddBytes(BuiltFrom(parts[..|parts| - 1]), parts[|parts| - 1])
  }

  /** A message to which the queries were added one after the other. */
  ghost function Built(qs: seq<Query>): (m: Message)
    ensures InOrder(m) && NoRecords(m)
  {
    if qs == [] then EmptyMessage else AddQuery(Built(qs[..|qs| - 1]), qs[|qs| - 1])
  }

  lemma {:induction false} BuiltIsFromEncodings(qs: seq<Query>)
    ensures Built(qs) == BuiltFrom(Encodings(qs))
  {
    if qs != [] {
      var front := qs[..|qs| - 1];
      BuiltIsFromEncodings(front);
      assert Encodings(qs)[..|qs| - 1] == Encodings(front);
    }
  }

  ghost function Flat(parts: seq<Bytes>): Bytes {
    if parts == [] then [] else parts[0] + Flat(parts[1..])
  }

  lemma {:induction false} FlatAppend(parts: seq<Bytes>, part: Bytes)
    ensures Flat(parts + [part]) == Flat(parts) + part
  {
    if parts == [] {
      assert parts + [part] == [part] && [part][1..] == [];
      assert part + [] == [] + part;
    } else {
      FlatAppend(parts[1..], part);
      assert (parts + [part])[1..] == parts[1..] + [part];
      assert parts[0] + (Flat(parts[1..]) + part) == parts[0] + Flat(parts[1..]) + part;
    }
  }

  lemma AddAtEnd(m: Message, bytes: Bytes)
    requires InOrder(m) && NoRecords(m) && m.answersIdx == |m.records|
    ensures AddBytes(m, bytes).records == m.records + bytes
  {
    assert m.records[..|m.records|] == m.records && m.records[|m.records|..] == [];
    assert m.records + bytes + [] == m.records + bytes;
  }

  lemma NextIs(n: nat)
    ensures Next(n % 0x1_0000) == (n + 1) % 0x1_0000
  {
  }

  lemma {:induction false} BuiltFromIs(parts: seq<Bytes>)
    ensures BuiltFrom(parts).records == Flat(parts) && BuiltFrom(parts).header.questions == |parts| % 0x1_0000
  {
    if parts != [] {
      var front, part := parts[..|parts| - 1], parts[|parts| - 1];
      BuiltFromIs(front);
      AddAtEnd(BuiltFrom(front), part);
      FlatAppend(front, part);
      NextIs(|front|);
      assert parts == front + [part];
    }
  }

  /** A query that can be asked: an encodable name without a zero byte. */
  ghost predicate WellFormed(q: Query) {
    Encodable(q.name) && 0 !in q.name
  }

  ghost predicate AllWellFormed(qs: seq<Query>) {
    forall i :: 0 <= i < |qs| ==> WellFormed(qs[i])
  }

  lemma {:induction false} CStringWhole(text: Bytes)
    requires 0 !in text
    ensures CString(text) == text
  {
    if text != [] {
      assert text[0] in text && forall x :: x in text[1..] ==> x in text;
      CStringWhole(text[1..]);
    }
  }

  lemma HoldsWord(data: Bytes, pos: nat, w: Half)
    requires HoldsAt(data, pos, WordBytes(w))
    ensures WordAt(data, pos) == w
  {
    HighAndLow(w);
    assert data[pos] == data[pos..pos + 2][0] && data[pos + 1] == data[pos..pos + 2][1];
  }

  /** The query stands at a position and ends before another. */
  ghost predicate QueryAt(data: Bytes, pos: nat, q: Query, next: nat) {
    var e := NameEnd(data, pos);
    && pos < next && e + 4 == next <= |data|
    && Compose(data, pos, []) == Some(q.name) && CString(q.name) == q.name
    && WordAt(data, e) == q.qtype && WordAt(data, e + 2) == q.qclass
  }

  /** Wherever these bytes stand, the query is read. */
  ghost predicate Reads(part: Bytes, q: Query) {
    forall data, pos: nat :: HoldsAt(data, pos, part) ==> QueryAt(data, pos, q, pos + |part|)
  }

  lemma HoldsThree(data: Bytes, pos: nat, a: Bytes, b: Bytes, c: Bytes)
    requires HoldsAt(data, pos, a + b + c)
    ensures HoldsAt(data, pos, a) && HoldsAt(data, pos + |a|, b) && HoldsAt(data, pos + |a| + |b|, c)
  {
    HoldsParts(data, pos, a + b, c);
    HoldsParts(data, pos, a, b);
  }

  lemma ReadWords(data: Bytes, pos: nat, name: Bytes, a: Half, b: Half)
    requires HoldsAt(data, pos, name + WordBytes(a) + WordBytes(b))
    ensures HoldsAt(data, pos, name) && pos + |name| + 4 <= |data|
    ensures WordAt(data, pos + |name|) == a && WordAt(data, pos + |name| + 2) == b
  {
    HoldsThree(data, pos, name, WordBytes(a), WordBytes(b));
    HoldsWord(data, pos + |name|, a);
    HoldsWord(data, pos + |name| + 2, b);
  }

  lemma MakeQueryAt(data: Bytes, pos: nat, q: Query, e: nat, next: nat)
    requires Compose(data, pos, []) == Some(q.name) && NameEnd(data, pos) == e && CString(q.name) == q.name
    requires e + 4 == next <= |data| && WordAt(data, e) == q.qtype && WordAt(data, e + 2) == q.qclass
    ensures QueryAt(data, pos, q, next)
  {
  }

  lemma NameOfQuery(data: Bytes, pos: nat, q: Query)
    requires WellFormed(q) && HoldsAt(data, pos, Encode(q.name))
    ensures Compose(data, pos, []) == Some(q.name) && NameEnd(data, pos) == pos + |Encode(q.name)|
    ensures CString(q.name) == q.name
  {
    EncodeRoundTrip(data, pos, q.name);
    CStringWhole(q.name);
  }

  lemma WordsOfQuery(data: Bytes, pos: nat, q: Query, e: nat, next: nat)
    requires HoldsAt(data, pos, EncodeQuery(q)) && e == pos + |Encode(q.name)| && next == pos + |EncodeQuery(q)|
    ensures HoldsAt(data, pos, Encode(q.name)) && e + 4 == next <= |data|
    ensures WordAt(data, e) == q.qtype && WordAt(data, e + 2) == q.qclass
  {
    ReadWords(data, pos, Encode(q.name), q.qtype, q.qclass);
  }

  /** An encoded query is read back wherever it stands. */
  lemma ReadQuery(data: Bytes, pos: nat, q: Query, next: nat)
    requires WellFormed(q) && HoldsAt(data, pos, EncodeQuery(q)) && next == pos + |EncodeQuery(q)|
    ensures QueryAt(data, pos, q, next)
  {
    var e := pos + |Encode(q.name)|;
    WordsOfQuery(data, pos, q, e, next);
    NameOfQuery(data, pos, q);
    MakeQueryAt(data, pos, q, e, next);
  }

  lemma EncodingReads(q: Query)
    requires WellFormed(q)
    ensures Reads(EncodeQuery(q), q)
  {
    forall data, pos: nat | HoldsAt(data, pos, EncodeQuery(q))
      ensures QueryAt(data, pos, q, pos + |EncodeQuery(q)|)
    {
      ReadQuery(data, pos, q, pos + |EncodeQuery(q)|);
    }
  }

  /** The first query is read where it stands, and the others after it. */
  lemma ReadFirst(data: Bytes, pos: nat, q: Query, next: nat, n: nat, end: nat)
    requires QueryAt(data, pos, q, next) && next <= end <= |data|
    ensures SkipQueries(data, pos, n + 1) == SkipQueries(data, next, n)
    ensures QueriesFrom(data, pos, end) == Push(q, QueriesFrom(data, next, end))
  {
  }

  ghost predicate ReadsAll(data: Bytes, pos: nat, qs: seq<Query>, end: nat) {
    end <= |data| && SkipQueries(data, pos, |qs|) == Some(end) && QueriesFrom(data, pos, end) == Some(qs)
  }

  /** Part by part, the bytes are read as the queries. */
  ghost predicate Encodes(parts: seq<Bytes>, qs: seq<Query>)
    decreases |qs|
  {
    |qs| == |parts| && (qs != [] ==> Reads(parts[0], qs[0]) && Encodes(parts[1..], qs[1..]))
  }

  lemma ReadsAllCons(data: Bytes, pos: nat, q: Query, next: nat, rest: seq<Query>, end: nat)
    requires QueryAt(data, pos, q, next) && ReadsAll(data, next, rest, end) && next <= end
    ensures ReadsAll(data, pos, [q] + rest, end)
  {
    ReadFirst(data, pos, q, next, |rest|, end);
  }

  lemma ReadsMore(data: Bytes, pos: nat, part: Bytes, qs: seq<Query>, end: nat)
    requires qs != [] && Reads(part, qs[0]) && HoldsAt(data, pos, part)
    requires pos + |part| <= end && ReadsAll(data, pos + |part|, qs[1..], end)
    ensures ReadsAll(data, pos, qs, end)
  {
    assert QueryAt(data, pos, qs[0], pos + |part|);
    ReadsAllCons(data, pos, qs[0], pos + |part|, qs[1..], end);
    assert [qs[0]] + qs[1..] == qs;
  }

  lemma ReadsNone(data: Bytes, pos: nat)
    requires pos <= |data|
    ensures ReadsAll(data, pos, [], pos)
  {
  }

  lemma FlatHolds(data: Bytes, pos: nat, parts: seq<Bytes>)
    requires parts != [] && HoldsAt(data, pos, Flat(parts))
    ensures HoldsAt(data, pos, parts[0]) && HoldsAt(data, pos + |parts[0]|, Flat(parts[1..]))
    ensures |Flat(parts)| == |parts[0]| + |Flat(parts[1..])|
  {
    HoldsParts(data, pos, parts[0], Flat(parts[1..]));
  }

  lemma {:induction false} ReadAll(data: Bytes, pos: nat, qs: seq<Query>, parts: seq<Bytes>, end: nat)
    requires Encodes(parts, qs) && HoldsAt(data, pos, Flat(parts)) && end == pos + |Flat(parts)|
    ensures ReadsAll(data, pos, qs, end)
    decreases |qs|
  {
    if qs == [] {
      ReadsNone(data, pos);
    } else {
      FlatHolds(data, pos, parts);
      ReadAll(data, pos + |parts[0]|, qs[1..], parts[1..], end);
      ReadsMore(data, pos, parts[0], qs, end);
    }
  }

  lemma {:induction false} EncodesFront(parts: seq<Bytes>, qs: seq<Query>, n: nat)
    requires Encodes(parts, qs) && n <= |qs|
    ensures Encodes(parts[..n], qs[..n])
    decreases n
  {
    if n > 0 {
      EncodesFront(parts[1..], qs[1..], n - 1);
      assert parts[..n][1..] == parts[1..][..n - 1] && qs[..n][1..] == qs[1..][..n - 1];
    }
  }

  lemma {:induction false} FlatSplit(parts: seq<Bytes>, n: nat)
    requires n <= |parts|
    ensures Flat(parts) == Flat(parts[..n]) + Flat(parts[n..])
  {
    if n > 0 {
      FlatSplit(parts[1..], n - 1);
      assert parts[..n][1..] == parts[1..][..n - 1] && parts[1..][n - 1..] == parts[n..];
      var x, y := Flat(parts[1..][..n - 1]), Flat(parts[n..]);
      assert parts[0] + (x + y) == parts[0] + x + y;
    } else {
      assert parts[0..] == parts && parts[..0] == [];
      assert [] + Flat(parts) == Flat(parts);
    }
  }

  lemma HeaderRoundTrip(buffer: Bytes, h: Header, records: Bytes)
    requires |h.idAndFlags| == 4 && buffer == WriteHeader(h) + records
    ensures |buffer| == HEADER + |records| && ReadHeader(buffer) == h && buffer[HEADER..] == records
  {
    assert buffer[..4] == h.idAndFlags;
    HoldsWordAt(buffer, 4, h.questions);
    HoldsWordAt(buffer, 6, h.answers);
    HoldsWordAt(buffer, 8, h.authority);
    HoldsWordAt(buffer, 10, h.additional);
  }

  lemma HoldsWordAt(buffer: Bytes, pos: nat, w: Half)
    requires pos + 2 <= |buffer| && buffer[pos] == WordBytes(w)[0] && buffer[pos + 1] == WordBytes(w)[1]
    ensures WordAt(buffer, pos) == w
  {
    HighAndLow(w);
  }

  /** The buffer is accepted, and its queries are these. */
  ghost predicate Returns(buffer: Bytes, qs: seq<Query>) {
    Parse(buffer).Some? && InOrder(Parse(buffer).value) && Queries(Parse(buffer).value) == Some(qs)
  }

  lemma SectionsOfQueries(h: Header, records: Bytes, qs: seq<Query>, end: nat)
    requires h.answers == 0 && h.authority == 0 && h.questions == |qs| && ReadsAll(records, 0, qs, end)
    ensures FindSections(h, records) == Some(Message(h, records, end, end, end))
  {
    assert SkipRecords(records, end, 0) == Some(end);
  }

  /** A message without other records is parsed by its queries alone. */
  lemma ParseQueriesOnly(buffer: Bytes, h: Header, records: Bytes, qs: seq<Query>, end: nat)
    requires |buffer| > HEADER && ReadHeader(buffer) == h && buffer[HEADER..] == records
    requires h.answers == 0 && h.authority == 0 && h.questions == |qs| && ReadsAll(records, 0, qs, end)
    ensures Returns(buffer, qs)
  {
    SectionsOfQueries(h, records, qs, end);
    assert Parse(buffer) == Some(Message(h, records, end, end, end));
  }

  lemma ParseBareHeader(buffer: Bytes)
    requires |buffer| == HEADER
    ensures Returns(buffer, [])
  {
    assert QueriesFrom([], 0, 0) == Some([]);
  }

  lemma ReadBuilt(qs: seq<Query>, parts: seq<Bytes>, n: nat)
    requires Encodes(parts, qs) && n <= |qs|
    ensures ReadsAll(Flat(parts), 0, qs[..n], |Flat(parts[..n])|)
  {
    FlatSplit(parts, n);
    var data := Flat(parts);
    assert data[0..|Flat(parts[..n])|] == Flat(parts[..n]);
    EncodesFront(parts, qs, n);
    ReadAll(data, 0, qs[..n], parts[..n], |Flat(parts[..n])|);
  }

  lemma ParseBuilt(m: Message, buffer: Bytes, qs: seq<Query>, end: nat)
    requires |m.header.idAndFlags| == 4 && NoRecords(m) && buffer == WriteHeader(m.header) + m.records
    requires m.header.questions == |qs| && ReadsAll(m.records, 0, qs, end)
    ensures Returns(buffer, qs)
  {
    HeaderRoundTrip(buffer, m.header, m.records);
    if m.records == [] {
      ParseBareHeader(buffer);
    } else {
      ParseQueriesOnly(buffer, m.header, m.records, qs, end);
    }
  }

  lemma {:induction false} EncodingsRead(qs: seq<Query>)
    requires AllWellFormed(qs)
    ensures Encodes(Encodings(qs), qs)
  {
    if qs != [] {
      EncodingReads(qs[0]);
      EncodingsRead(qs[1..]);
      assert Encodings(qs)[1..] == Encodings(qs[1..]);
    }
  }

  lemma CountLost(count: nat)
    ensures var n := count % 0x1_0000; n <= count && (n == count <==> count < 0x1_0000)
  {
  }

  lemma ReturnsFront(qs: seq<Query>, parts: seq<Bytes>, n: nat, buffer: Bytes)
    requires AllWellFormed(qs) && parts == Encodings(qs) && n <= |qs| && n == BuiltFrom(parts).header.questions
    requires buffer == Serialize(BuiltFrom(parts))
    ensures Returns(buffer, qs[..n])
  {
    EncodingsRead(qs);
    BuiltFromIs(parts);
    ReadBuilt(qs, parts, n);
    ParseBuilt(BuiltFrom(parts), buffer, qs[..n], |Flat(parts[..n])|);
  }

  lemma ReturnsOnce(buffer: Bytes, a: seq<Query>, b: seq<Query>)
    requires Returns(buffer, a)
    ensures Returns(buffer, b) <==> a == b
  {
  }

  lemma NothingLostIff(qs: seq<Query>, n: nat)
    requires n == |qs| % 0x1_0000
    ensures n <= |qs| && (qs[..n] == qs <==> |qs| < 0x1_0000)
  {
    CountLost(|qs|);
    assert n == |qs| ==> qs[..n] == qs;
  }

  lemma ReturnsAllIff(buffer: Bytes, qs: seq<Query>, n: nat)
    requires n == |qs| % 0x1_0000 && n <= |qs| && Returns(buffer, qs[..n])
    ensures Returns(buffer, qs) <==> |qs| < 0x1_0000
  {
    NothingLostIff(qs, n);
    ReturnsOnce(buffer, qs[..n], qs);
  }

  lemma BuiltReturnsFront(qs: seq<Query>, n: nat, buffer: Bytes)
    requires AllWellFormed(qs) && n == |qs| % 0x1_0000 && n <= |qs| && buffer == Serialize(Built(qs))
    ensures Returns(buffer, qs[..n])
  {
    var parts := Encodings(qs);
    BuiltIsFromEncodings(qs);
    BuiltFromIs(parts);
    ReturnsFront(qs, parts, n, buffer);
  }

  /**
   Queries added to an empty message, serialized and parsed, come back: those the
   16-bit count still counts, so all of them exactly when they are fewer than 65536.
   */
  lemma QueriesRoundTrip(qs: seq<Query>, n: nat, buffer: Bytes)
    requires AllWellFormed(qs) && n == |qs| % 0x1_0000 && buffer == Serialize(Built(qs))
    ensures n <= |qs| && Returns(buffer, qs[..n])
    ensures Returns(buffer, qs) <==> |qs| < 0x1_0000
  {
    CountLost(|qs|);
    BuiltReturnsFront(qs, n, buffer);
    ReturnsAllIff(buffer, qs, n);
  }
}
