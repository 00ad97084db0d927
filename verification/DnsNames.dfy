/**
 Domain names inside a DNS message: decompression of names that end in a pointer to
 an earlier name, skipping a name, and encoding. Positions count from the byte after
 the twelve-byte header. Reading at or past the end of the data is a failure.
 */
module DnsNames {

  type Byte = x: int | 0 <= x < 256
  type Bytes = seq<Byte>

  datatype Option<T> = None | Some(value: T)

  const HEADER: int := 12
  const DOT: Byte := 46

  /** Two bytes in network order. */
  function Word(high: int, low: int): int
    decreases high
  {
    if high <= 0 then low else 256 + Word(high - 1, low)
  }

  lemma {:induction false} WordIs(high: nat, low: int)
    ensures Word(high, low) == high * 256 + low
  {
    if high > 0 { WordIs(high - 1, low); }
  }

  /** Either of the two high bits is set: not a label length. */
  predicate IsPointer(b: Byte) { b >= 64 }

  /** Where the pointer at the position leads; negative if into the header. */
  function Target(data: Bytes, pos: nat): int
    requires pos + 2 <= |data|
  {
    Word(LowSix(data[pos]), data[pos + 1]) - HEADER
  }

  /** The byte without its two high bits. */
  function LowSix(b: Byte): (r: Byte)
    ensures r < 64
  {
    if b >= 192 then b - 192 else if b >= 128 then b - 128 else if b >= 64 then b - 64 else b
  }

  /** The pointer's offset is the low fourteen bits of the two bytes. */
  lemma TargetIsLowFourteen(data: Bytes, pos: nat)
    requires pos + 2 <= |data|
    ensures Target(data, pos) == (data[pos] * 256 + data[pos + 1]) % 0x4000 - HEADER
  {
    WordIs(LowSix(data[pos]), data[pos + 1]);
  }

  predicate PointsBack(data: Bytes, pos: nat) {
    pos + 2 <= |data| && 0 <= Target(data, pos) < pos
  }

  function Extend(text: Bytes, part: Bytes): Bytes {
    if text == [] then part else text + [DOT] + part
  }

  /** The label at the position. */
  function LabelAt(data: Bytes, pos: nat): Bytes
    requires pos < |data| && pos + 1 + data[pos] <= |data|
  {
    data[pos + 1..pos + 1 + data[pos]]
  }

  /** compose_name, from a position and with some text already composed. */
  function Compose(data: Bytes, pos: nat, text: Bytes): (r: Option<Bytes>)
    requires |text| <= 255
    ensures r.Some? ==> |r.value| <= 255
    decreases 255 - |text|, pos
  {
    if pos >= |data| then None
    else if data[pos] == 0 then Some(text)
    else if IsPointer(data[pos]) then
      if !PointsBack(data, pos) then None else Compose(data, Target(data, pos), text)
    else if pos + 1 + data[pos] > |data| || |text| + data[pos] + 1 > 255 then None
    else Compose(data, pos + 1 + data[pos], Extend(text, LabelAt(data, pos)))
  }

  /** find_dname_end; may lie past the end of the data. */
  function NameEnd(data: Bytes, pos: nat): (e: nat)
    ensures e >= pos && (pos < |data| ==> e > pos)
    decreases |data| - pos
  {
    if pos >= |data| then pos
    else if data[pos] == 0 then pos + 1
    else if IsPointer(data[pos]) then pos + 2
    else NameEnd(data, pos + 1 + data[pos])
  }

  // ------------------------------------------------------------------ the loops

  method FindNameEnd(data: Bytes, start: nat) returns (ptr: nat)
    ensures ptr == NameEnd(data, start)
  {
    ptr := start;
    while ptr < |data|
      invariant NameEnd(data, start) == NameEnd(data, ptr)
    {
      if data[ptr] == 0 {
        return ptr + 1;
      } else if IsPointer(data[ptr]) {
        return ptr + 2;
      }
      ptr := ptr + data[ptr] + 1;
    }
  }

  method CopyBytes(out: array<Byte>, at: nat, bytes: Bytes)
    requires at + |bytes| <= out.Length
    modifies out
    ensures out[..at + |bytes|] == old(out[..at]) + bytes
  {
    for i := 0 to |bytes|
      invariant out[..at + i] == old(out[..at]) + bytes[..i]
    {
      out[at + i] := bytes[i];
      assert out[..at + i + 1] == out[..at + i] + [bytes[i]];
    }
  }

  /** A label after the text so far, with a dot before it if it is not the first. */
  method AppendLabel(out: array<Byte>, n: nat, part: Bytes) returns (n': nat)
    requires n + |part| + 1 <= 255 < out.Length
    modifies out
    ensures n' <= 255 && n' >= n + |part| && out[..n'] == Extend(old(out[..n]), part)
  {
    n' := n;
    if n != 0 {
      out[n'] := DOT;
      n' := n' + 1;
      assert out[..n'] == old(out[..n]) + [DOT];
    }
    CopyBytes(out, n', part);
    n' := n' + |part|;
  }

  lemma LabelStep(data: Bytes, pos: nat, text: Bytes)
    requires pos < |data| && data[pos] != 0 && !IsPointer(data[pos])
    requires pos + 1 + data[pos] <= |data| && |text| + data[pos] + 1 <= 255
    ensures Compose(data, pos, text) == Compose(data, pos + 1 + data[pos], Extend(text, LabelAt(data, pos)))
    ensures NameEnd(data, pos) == NameEnd(data, pos + 1 + data[pos])
  {
  }

  lemma PointerStep(data: Bytes, pos: nat, text: Bytes)
    requires pos < |data| && IsPointer(data[pos]) && PointsBack(data, pos) && |text| <= 255
    ensures Compose(data, pos, text) == Compose(data, Target(data, pos), text) && NameEnd(data, pos) == pos + 2
  {
  }

  /** Where composing stands: the rest of the name follows from here, and its end is known or will be found. */
  ghost predicate Composing(data: Bytes, start: nat, ptr: nat, n: nat, out: array<Byte>, end: Option<nat>)
    reads out
  {
    && n <= 255 < out.Length && Compose(data, start, []) == Compose(data, ptr, out[..n])
    && NameEnd(data, start) == if end.None? then NameEnd(data, ptr) else end.value
  }

  /** The branch of the loop for an offset. */
  method FollowPointer(data: Bytes, ghost start: nat, ptr: nat, ghost n: nat, out: array<Byte>, end: Option<nat>)
    returns (ok: bool, ptr': nat, end': Option<nat>)
    requires ptr < |data| && IsPointer(data[ptr]) && Composing(data, start, ptr, n, out, end)
    ensures ok ==> ptr' < ptr && Composing(data, start, ptr', n, out, end')
    ensures !ok ==> Compose(data, start, []).None?
  {
    ok, ptr', end' := PointsBack(data, ptr), ptr, end;
    if ok {
      PointerStep(data, ptr, out[..n]);
      if end.None? { end' := Some(ptr + 2); }
      ptr' := Target(data, ptr);
    }
  }

  /** The branch of the loop for a label. */
  method CopyLabel(data: Bytes, ghost start: nat, ptr: nat, n: nat, out: array<Byte>, ghost end: Option<nat>)
    returns (ok: bool, ptr': nat, n': nat)
    requires ptr < |data| && data[ptr] != 0 && !IsPointer(data[ptr]) && Composing(data, start, ptr, n, out, end)
    modifies out
    ensures ok ==> n < n' && Composing(data, start, ptr', n', out, end)
    ensures !ok ==> Compose(data, start, []).None?
  {
    var size := data[ptr];
    ok, ptr', n' := ptr + 1 + size <= |data| && n + size + 1 <= 255, ptr, n;
    if ok {
      LabelStep(data, ptr, out[..n]);
      n' := AppendLabel(out, n, LabelAt(data, ptr));
      ptr' := ptr + 1 + size;
    }
  }

  /** Fills the caller's buffer, which has room for 255 characters and a terminator. */
  method ComposeName(data: Bytes, start: nat, out: array<Byte>) returns (end: Option<nat>)
    requires out.Length >= 256
    modifies out
    ensures end.Some? <==> Compose(data, start, []).Some?
    ensures end.Some? ==>
      var text := Compose(data, start, []).value;
      out[..|text|] == text && out[|text|] == 0 && end.value == NameEnd(data, start)
  {
    var ptr: nat, n: nat := start, 0;
    end := None;
    assert out[..0] == [];
    while true
      invariant Composing(data, start, ptr, n, out, end)
      decreases 255 - n, ptr
    {
      if ptr >= |data| { return None; }
      if data[ptr] == 0 { break; }
      var ok;
      if IsPointer(data[ptr]) {
        ok, ptr, end := FollowPointer(data, start, ptr, n, out, end);
      } else {
        ok, ptr, n := CopyLabel(data, start, ptr, n, out, end);
      }
      if !ok { return None; }
    }
    ghost var text := out[..n];
    assert Compose(data, start, []) == Some(text);
    out[n] := 0;
    assert out[..n] == text;
    if end.None? { end := Some(ptr + 1); }
  }

  // ------------------------------------------------ what a name is, in RFC 1035's terms

  /** A name: labels up to a zero byte, or up to a pointer back to the rest of the name (section 4.1.4 of RFC 1035). */
  ghost predicate Name(data: Bytes, pos: nat, labels: seq<Bytes>, reserved: bool)
    decreases |labels|, pos
  {
    && pos < |data|
    && if data[pos] == 0 then labels == []
       else if IsPointer(data[pos]) then
         (reserved || data[pos] >= 192) && PointsBack(data, pos) && Name(data, Target(data, pos), labels, reserved)
       else
         && pos + 1 + data[pos] <= |data|
         && labels != [] && labels[0] == LabelAt(data, pos)
         && Name(data, pos + 1 + data[pos], labels[1..], reserved)
  }

  /** Labels appended with dots between them. */
  ghost function Joined(text: Bytes, labels: seq<Bytes>): (r: Bytes)
    ensures |r| >= |text|
    decreases |labels|
  {
    if labels == [] then text else Joined(Extend(text, labels[0]), labels[1..])
  }

  lemma {:induction false} ComposeFindsName(data: Bytes, pos: nat, text: Bytes) returns (labels: seq<Bytes>)
    requires |text| <= 255 && Compose(data, pos, text).Some?
    ensures Name(data, pos, labels, true) && Compose(data, pos, text).value == Joined(text, labels)
    decreases 255 - |text|, pos
  {
    if data[pos] == 0 {
      labels := [];
    } else if IsPointer(data[pos]) {
      labels := ComposeFindsName(data, Target(data, pos), text);
    } else {
      var part := LabelAt(data, pos);
      var rest := ComposeFindsName(data, pos + 1 + data[pos], Extend(text, part));
      labels := [part] + rest;
      assert labels[1..] == rest;
    }
  }

  lemma {:induction false} NameIsComposed(data: Bytes, pos: nat, text: Bytes, labels: seq<Bytes>)
    requires |text| <= 255 && Name(data, pos, labels, true)
    ensures Compose(data, pos, text)
         == if |Joined(text, labels)| <= 255 then Some(Joined(text, labels)) else None
    decreases |labels|, pos
  {
    if data[pos] == 0 {
    } else if IsPointer(data[pos]) {
      NameIsComposed(data, Target(data, pos), text, labels);
    } else {
      var next := Extend(text, labels[0]);
      if |text| + data[pos] + 1 <= 255 {
        NameIsComposed(data, pos + 1 + data[pos], next, labels[1..]);
      } else {
        assert |Joined(text, labels)| >= |next|;
      }
    }
  }

  /** The name at a position, in the loose reading: names are unique, so there is at most one. */
  ghost predicate NameReads(data: Bytes, pos: nat, text: Bytes) {
    exists labels :: Name(data, pos, labels, true) && text == Joined([], labels)
  }

  /** compose_name succeeds exactly on names of at most 255 characters, and returns them. */
  lemma ComposeIff(data: Bytes, pos: nat, text: Bytes)
    ensures Compose(data, pos, []) == Some(text) <==> NameReads(data, pos, text) && |text| <= 255
  {
    if Compose(data, pos, []) == Some(text) {
      var labels := ComposeFindsName(data, pos, []);
    }
    if NameReads(data, pos, text) && |text| <= 255 {
      var labels :| Name(data, pos, labels, true) && text == Joined([], labels);
      NameIsComposed(data, pos, [], labels);
    }
  }

  lemma {:induction false} NameIsUnique(data: Bytes, pos: nat, a: seq<Bytes>, b: seq<Bytes>)
    requires Name(data, pos, a, true) && Name(data, pos, b, true)
    ensures a == b
    decreases |a|, pos
  {
    if data[pos] == 0 {
    } else if IsPointer(data[pos]) {
      NameIsUnique(data, Target(data, pos), a, b);
    } else {
      NameIsUnique(data, pos + 1 + data[pos], a[1..], b[1..]);
      assert a == [a[0]] + a[1..] && b == [b[0]] + b[1..];
    }
  }

  /** The first octets 0x40 to 0xbf, which RFC 1035 reserves, met on the way through a name. */
  ghost predicate MeetsReserved(data: Bytes, pos: nat, labels: seq<Bytes>)
    requires Name(data, pos, labels, true)
    decreases |labels|, pos
  {
    if data[pos] == 0 then false
    else if IsPointer(data[pos]) then data[pos] < 192 || MeetsReserved(data, Target(data, pos), labels)
    else MeetsReserved(data, pos + 1 + data[pos], labels[1..])
  }

  /** A name accepted is one RFC 1035 assigns exactly when no reserved octet is met. */
  lemma {:induction false} StandardIff(data: Bytes, pos: nat, labels: seq<Bytes>)
    requires Name(data, pos, labels, true)
    ensures Name(data, pos, labels, false) <==> !MeetsReserved(data, pos, labels)
    decreases |labels|, pos
  {
    if data[pos] == 0 {
    } else if IsPointer(data[pos]) {
      StandardIff(data, Target(data, pos), labels);
    } else {
      StandardIff(data, pos + 1 + data[pos], labels[1..]);
    }
  }

  lemma {:induction false} StandardIsAccepted(data: Bytes, pos: nat, labels: seq<Bytes>)
    requires Name(data, pos, labels, false)
    ensures Name(data, pos, labels, true)
    decreases |labels|, pos
  {
    if data[pos] == 0 {
    } else if IsPointer(data[pos]) {
      StandardIsAccepted(data, Target(data, pos), labels);
    } else {
      StandardIsAccepted(data, pos + 1 + data[pos], labels[1..]);
    }
  }

  /** Every name RFC 1035 assigns is composed, unless it is longer than 255 characters. */
  lemma StandardIsComposed(data: Bytes, pos: nat, labels: seq<Bytes>)
    requires Name(data, pos, labels, false)
    ensures Compose(data, pos, []) == if |Joined([], labels)| <= 255 then Some(Joined([], labels)) else None
  {
    StandardIsAccepted(data, pos, labels);
    NameIsComposed(data, pos, [], labels);
  }

  /** Octet 0x40 is taken for a pointer although RFC 1035 gives it no meaning. */
  lemma ReservedOctetIsFollowed(labels: seq<Bytes>)
    ensures Compose([0, 0x40, 12], 1, []) == Some([]) && !Name([0, 0x40, 12], 1, labels, false)
  {
    var data: Bytes := [0, 0x40, 12];
    assert Target(data, 1) == 0;
    assert Compose(data, 0, []) == Some([]);
  }

  /** compose_name leaves off where find_dname_end does. */
  lemma {:induction false} ComposeEndsInData(data: Bytes, pos: nat, text: Bytes)
    requires |text| <= 255 && Compose(data, pos, text).Some?
    ensures NameEnd(data, pos) <= |data|
    decreases |data| - pos
  {
    if data[pos] != 0 && !IsPointer(data[pos]) {
      ComposeEndsInData(data, pos + 1 + data[pos], Extend(text, LabelAt(data, pos)));
    }
  }

  /** Positions from label to label, each after the one before, up to a zero byte or a pointer. */
  ghost predicate LabelsUpTo(data: Bytes, ps: seq<nat>) {
    && ps != []
    && (forall i :: 0 <= i < |ps| ==> ps[i] < |data|)
    && (forall i :: 0 <= i < |ps| - 1 ==> 0 < data[ps[i]] < 64 && ps[i + 1] == ps[i] + 1 + data[ps[i]])
    && (data[ps[|ps| - 1]] == 0 || IsPointer(data[ps[|ps| - 1]]))
  }

  /** A name ends one byte after the start of its zero byte, or two after the start of its pointer. */
  lemma {:induction false} NameEndIs(data: Bytes, ps: seq<nat>)
    requires LabelsUpTo(data, ps)
    ensures var last := ps[|ps| - 1];
            NameEnd(data, ps[0]) == if data[last] == 0 then last + 1 else last + 2
    decreases |ps|
  {
    if |ps| > 1 {
      var rest := ps[1..];
      assert forall i :: 0 <= i < |rest| ==> rest[i] == ps[i + 1];
      NameEndIs(data, rest);
    }
  }

  // ------------------------------------------------------------------- encoding

  function FindDot(name: Bytes, from: nat): (r: Option<nat>)
    ensures r.Some? ==> from <= r.value < |name| && name[r.value] == DOT
    decreases |name| - from
  {
    if from >= |name| then None
    else if name[from] == DOT then Some(from)
    else FindDot(name, from + 1)
  }

  /** The rest of encode_domain_name from the start of a label; each label's length goes into one byte. */
  function EncodeFrom(name: Bytes, last: nat): Bytes
    requires last <= |name|
    decreases |name| - last
  {
    match FindDot(name, last + 1)
    case Some(i) => EncodeLabel(name, last, i) + EncodeFrom(name, i + 1)
    case None => EncodeLabel(name, last, |name|)
  }

  /** A label with its length, as far as that fits one byte, before it. */
  function EncodeLabel(name: Bytes, from: nat, to: nat): Bytes
    requires from <= to <= |name|
  {
    [LengthByte(to - from)] + name[from..to]
  }

  /** A length stored in one byte, which loses all but its low eight bits. */
  function LengthByte(n: nat): Byte { if n < 256 then n else LengthByte(n - 256) }

  lemma {:induction false} LengthByteIsLowEight(n: nat)
    ensures LengthByte(n) == n % 256
  {
    if n >= 256 { LengthByteIsLowEight(n - 256); }
  }

  function Encode(name: Bytes): Bytes {
    (if name == [] then [] else EncodeFrom(name, 0)) + [0]
  }

  method AppendEncoded(output: Bytes, name: Bytes, from: nat, to: nat) returns (r: Bytes)
    requires from <= to <= |name|
    ensures r == output + EncodeLabel(name, from, to)
  {
    r := output + [LengthByte(to - from)];
    r := r + name[from..to];
  }

  lemma EncodeNext(output: Bytes, name: Bytes, last: nat, i: nat)
    requires last <= |name| && FindDot(name, last + 1) == Some(i)
    ensures output + EncodeFrom(name, last) == output + EncodeLabel(name, last, i) + EncodeFrom(name, i + 1)
  {
    Associative(output, EncodeLabel(name, last, i), EncodeFrom(name, i + 1));
  }

  lemma Associative(a: Bytes, b: Bytes, c: Bytes)
    ensures a + (b + c) == a + b + c
  {
  }

  /** The labels of a name that is not empty. */
  method EncodeLabels(name: Bytes) returns (output: Bytes)
    ensures output == EncodeFrom(name, 0)
  {
    output := [];
    var last := 0;
    ghost var total := EncodeFrom(name, 0);
    assert [] + total == total;
    var index := FindDot(name, last + 1);
    while index.Some?
      invariant last <= |name| && index == FindDot(name, last + 1)
      invariant output + EncodeFrom(name, last) == total
      decreases |name| - last
    {
      var i := index.value;
      EncodeNext(output, name, last, i);
      output := AppendEncoded(output, name, last, i);
      last := i + 1;
      index := FindDot(name, last + 1);
    }
    output := AppendEncoded(output, name, last, |name|);
  }

  method EncodeDomainName(name: Bytes) returns (output: Bytes)
    ensures output == Encode(name)
  {
    output := [];
    if name != [] { output := EncodeLabels(name); }
    output := output + [0];
  }

  /** The labels encode_domain_name cuts a name into: a dot that starts a label stays in it. */
  function Labels(name: Bytes, last: nat): seq<Bytes>
    requires last <= |name|
    decreases |name| - last
  {
    match FindDot(name, last + 1)
    case Some(i) => [name[last..i]] + Labels(name, i + 1)
    case None => [name[last..]]
  }

  predicate Sized(labels: seq<Bytes>) {
    forall i :: 0 <= i < |labels| ==> 1 <= |labels[i]| <= 63
  }

  /** Every label has 1 to 63 bytes and the name at most 255. */
  predicate Encodable(name: Bytes) {
    |name| <= 255 && (name == [] || Sized(Labels(name, 0)))
  }

  /** The data holds these bytes at this position. */
  predicate HoldsAt(data: Bytes, pos: nat, bytes: Bytes) {
    pos + |bytes| <= |data| && data[pos..pos + |bytes|] == bytes
  }

  /** The part of a name before the label that starts at a position. */
  function Front(name: Bytes, last: nat): Bytes
    requires last <= |name|
  {
    if last == 0 then [] else name[..last - 1]
  }

  /** A label starts here: at the beginning, or after a dot that does not start a label. */
  predicate LabelStart(name: Bytes, last: nat) {
    last <= |name| && (last == 0 || (last >= 2 && name[last - 1] == DOT))
  }

  lemma ExtendFront(name: Bytes, last: nat, to: nat)
    requires LabelStart(name, last) && last <= to <= |name|
    ensures Extend(Front(name, last), name[last..to]) == name[..to]
  {
  }

  lemma HoldsParts(data: Bytes, pos: nat, a: Bytes, b: Bytes)
    requires HoldsAt(data, pos, a + b)
    ensures HoldsAt(data, pos, a) && HoldsAt(data, pos + |a|, b)
  {
    assert data[pos..pos + |a|] == (a + b)[..|a|];
    assert data[pos + |a|..pos + |a| + |b|] == (a + b)[|a|..];
  }

  /** Labels, each after its length. */
  function Encoded(labels: seq<Bytes>): Bytes {
    if labels == [] then [] else [LengthByte(|labels[0]|)] + labels[0] + Encoded(labels[1..])
  }

  lemma EncodedCons(part: Bytes, rest: seq<Bytes>)
    ensures Encoded([part] + rest) == [LengthByte(|part|)] + part + Encoded(rest)
  {
    assert ([part] + rest)[1..] == rest;
  }

  lemma {:induction false} EncodeFromIs(name: Bytes, last: nat)
    requires last <= |name|
    ensures EncodeFrom(name, last) == Encoded(Labels(name, last))
    decreases |name| - last
  {
    var dot := FindDot(name, last + 1);
    if dot.Some? {
      EncodeFromIs(name, dot.value + 1);
      EncodedCons(name[last..dot.value], Labels(name, dot.value + 1));
    } else {
      assert name[last..] == name[last..|name|];
      EncodedCons(name[last..], []);
      assert [name[last..]] + [] == [name[last..]];
    }
  }

  lemma {:induction false} LabelsJoin(name: Bytes, last: nat)
    requires LabelStart(name, last)
    ensures Joined(Front(name, last), Labels(name, last)) == name
    decreases |name| - last
  {
    var dot := FindDot(name, last + 1);
    var labels := Labels(name, last);
    if dot.Some? {
      ExtendFront(name, last, dot.value);
      LabelsJoin(name, dot.value + 1);
      assert labels[1..] == Labels(name, dot.value + 1);
    } else {
      ExtendFront(name, last, |name|);
      assert name[last..|name|] == name[last..] && name[..|name|] == name;
      assert labels[1..] == [];
    }
  }

  lemma HoldsByte(data: Bytes, pos: nat, b: Byte)
    requires HoldsAt(data, pos, [b])
    ensures data[pos] == b
  {
    assert data[pos] == data[pos..pos + 1][0];
  }

  lemma HoldsLabel(data: Bytes, pos: nat, size: Byte, part: Bytes)
    requires size == |part| && HoldsAt(data, pos, [size] + part)
    ensures data[pos] == size && LabelAt(data, pos) == part
  {
    HoldsParts(data, pos, [size], part);
    HoldsByte(data, pos, size);
  }

  /** Encoded labels are a name in RFC 1035's sense, and are skipped as one. */
  lemma {:induction false} EncodedIsName(data: Bytes, pos: nat, labels: seq<Bytes>)
    requires Sized(labels) && HoldsAt(data, pos, Encoded(labels) + [0])
    ensures Name(data, pos, labels, false) && NameEnd(data, pos) == pos + |Encoded(labels)| + 1
    decreases |labels|
  {
    if labels == [] {
      assert Encoded(labels) + [0] == [0];
      assert data[pos] == data[pos..pos + 1][0];
    } else {
      var head, rest := [LengthByte(|labels[0]|)] + labels[0], Encoded(labels[1..]);
      assert Encoded(labels) + [0] == head + (rest + [0]);
      HoldsParts(data, pos, head, rest + [0]);
      HoldsLabel(data, pos, |labels[0]|, labels[0]);
      EncodedIsName(data, pos + 1 + |labels[0]|, labels[1..]);
    }
  }

  /** encode_domain_name is undone by compose_name for every name whose labels have 1 to 63 bytes. */
  lemma EncodeRoundTrip(data: Bytes, pos: nat, name: Bytes)
    requires Encodable(name) && HoldsAt(data, pos, Encode(name))
    ensures Compose(data, pos, []) == Some(name) && NameEnd(data, pos) == pos + |Encode(name)|
  {
    var labels := if name == [] then [] else Labels(name, 0);
    if name == [] {
      assert Encode(name) == Encoded(labels) + [0];
    } else {
      EncodeFromIs(name, 0);
      LabelsJoin(name, 0);
    }
    EncodedIsName(data, pos, labels);
    StandardIsAccepted(data, pos, labels);
    NameIsComposed(data, pos, [], labels);
  }
}
