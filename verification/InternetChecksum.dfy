/**
 The Internet checksum of RFC 1071 as libtins computes it: big-endian 16-bit
 words added in a 32-bit accumulator, carries folded back at the end, and the
 complement stored in the header of the packet being written.
 */
module InternetChecksum {

  const WORD := 0x1_0000
  const WORD_MAX := 0xFFFF
  const ACCUMULATOR := 0x1_0000_0000

  type Byte = x: int | 0 <= x < 256

  // ------------------------------------------------------------------- sums of words

  /** Two bytes in network order. */
  function Word(high: int, low: int): int { high * 256 + low }

  function WordAt(d: seq<Byte>, k: nat): nat
    requires k + 1 < |d|
  {
    Word(d[k], d[k + 1])
  }

  function EvenSum(d: seq<Byte>): nat
    requires |d| % 2 == 0
  {
    if d == [] then 0 else EvenSum(d[..|d| - 2]) + WordAt(d, |d| - 2)
  }

  /** The sum of the words of d; an odd last byte is padded with zero on the right. */
  function Sum(d: seq<Byte>): nat {
    if |d| % 2 == 0 then EvenSum(d) else EvenSum(d[..|d| - 1]) + Word(d[|d| - 1], 0)
  }

  /** do_checksum, with its 32-bit accumulator. */
  method DoChecksum(buffer: array<Byte>, end: nat) returns (checksum: nat)
    requires end <= buffer.Length
    ensures checksum == Sum(buffer[..end]) % ACCUMULATOR
  {
    var d := buffer[..end];
    checksum := 0;
    var last, padding := end, 0;
    if end % 2 == 1 {
      last := end - 1;
      padding := Word(buffer[end - 1], 0);
    }
    var ptr := 0;
    assert last % 2 == 0;
    while ptr < last
      invariant 0 <= ptr <= last && ptr % 2 == 0
      invariant checksum == EvenSum(d[..ptr]) % ACCUMULATOR
    {
      EvenSumNext(d, ptr);
      ModAdd(EvenSum(d[..ptr]), WordAt(d, ptr));
      checksum := (checksum + Word(buffer[ptr], buffer[ptr + 1])) % ACCUMULATOR;
      ptr := ptr + 2;
    }
    assert end % 2 == 0 ==> d[..last] == d;
    ModAdd(EvenSum(d[..last]), padding);
    checksum := (checksum + padding) % ACCUMULATOR;
  }

  lemma EvenSumNext(d: seq<Byte>, k: nat)
    requires k % 2 == 0 && k + 2 <= |d|
    ensures EvenSum(d[..k + 2]) == EvenSum(d[..k]) + WordAt(d, k)
  {
    assert d[..k + 2][..k] == d[..k];
  }

  lemma ModAdd(a: nat, b: nat)
    ensures (a % ACCUMULATOR + b) % ACCUMULATOR == (a + b) % ACCUMULATOR
  {
    var q := a / ACCUMULATOR;
    assert a + b == (a % ACCUMULATOR + b) + q * ACCUMULATOR;
  }

  lemma {:induction false} EvenSumBound(d: seq<Byte>)
    requires |d| % 2 == 0
    ensures EvenSum(d) <= WORD_MAX * (|d| / 2)
    decreases |d|
  {
    if d != [] { EvenSumBound(d[..|d| - 2]); }
  }

  lemma {:induction false} EvenSumOfOnes(n: nat)
    requires n % 2 == 0
    ensures EvenSum(Ones(n)) == WORD_MAX * (n / 2)
  {
    if n != 0 {
      assert Ones(n)[..n - 2] == Ones(n - 2);
      EvenSumOfOnes(n - 2);
    }
  }

  function Ones(n: nat): (d: seq<Byte>)
    ensures |d| == n && forall i :: 0 <= i < n ==> d[i] == 255
  {
    if n == 0 then [] else Ones(n - 1) + [255]
  }

  lemma OnesPrefix(n: nat, m: nat)
    requires m <= n
    ensures Ones(n)[..m] == Ones(m)
  {
  }

  const MAX_LENGTH := 131074

  ghost predicate FitsAccumulator(n: nat) {
    forall d: seq<Byte> :: |d| == n ==> Sum(d) < ACCUMULATOR
  }

  /** The accumulator holds the sum of every buffer of a length exactly up to 131074 bytes. */
  lemma AccumulatorCapacity(n: nat)
    ensures FitsAccumulator(n) <==> n <= MAX_LENGTH
  {
    if n <= MAX_LENGTH {
      forall d: seq<Byte> | |d| == n ensures Sum(d) < ACCUMULATOR { SumFits(d); }
    } else {
      var d := Ones(n);
      if n % 2 == 0 {
        EvenSumOfOnes(n);
      } else {
        OnesPrefix(n, n - 1);
        EvenSumOfOnes(n - 1);
      }
      assert |d| == n && Sum(d) >= ACCUMULATOR;
    }
  }

  lemma SumFits(d: seq<Byte>)
    requires |d| <= MAX_LENGTH
    ensures Sum(d) < ACCUMULATOR
  {
    if |d| % 2 == 0 { EvenSumBound(d); } else { EvenSumBound(d[..|d| - 1]); }
  }

  // --------------------------------------------------------------------- folding

  /** The 16-bit representative of a sum modulo 65535, zero only for zero. */
  function Folded(c: nat): nat { if c == 0 then 0 else (c - 1) % WORD_MAX + 1 }

  /** The loop that adds the high half to the low half until nothing is carried. */
  method Fold(sum: nat) returns (c: nat)
    ensures c == Folded(sum) <= WORD_MAX
  {
    c := sum;
    while c / WORD != 0
      invariant Folded(c) == Folded(sum)
      decreases c
    {
      FoldOnce(c);
      c := c % WORD + c / WORD;
    }
    FoldedSmall(c);
  }

  lemma FoldOnce(c: nat)
    requires c / WORD != 0
    ensures Folded(c % WORD + c / WORD) == Folded(c)
    ensures c % WORD + c / WORD < c
  {
    var h, l := c / WORD, c % WORD;
    assert c - 1 == (l + h - 1) + h * WORD_MAX;
    ModShift(l + h - 1, h);
  }

  lemma FoldedSmall(c: nat)
    requires c < WORD
    ensures Folded(c) == c
  {
  }

  lemma {:induction false} ModShift(x: nat, k: nat)
    ensures (x + k * WORD_MAX) % WORD_MAX == x % WORD_MAX
  {
    if k != 0 { ModShift(x, k - 1); assert x + k * WORD_MAX == (x + (k - 1) * WORD_MAX) + WORD_MAX; }
  }

  // ------------------------------------------------------------ section 1 of RFC 1071

  /** One's complement addition of 16-bit words: the carry out is added back in. */
  function OnesAdd(a: nat, b: nat): nat {
    if a + b > WORD_MAX then a + b - WORD_MAX else a + b
  }

  /** The one's complement sum, adding the carry back after every word. */
  function OnesSum(d: seq<Byte>): nat
    requires |d| % 2 == 0
  {
    if d == [] then 0 else OnesAdd(OnesSum(d[..|d| - 2]), WordAt(d, |d| - 2))
  }

  lemma FoldedAdd(x: nat, w: nat)
    requires w <= WORD_MAX
    ensures Folded(x + w) == OnesAdd(Folded(x), w)
  {
    if x != 0 {
      var f := Folded(x);
      var k := (x - 1) / WORD_MAX;
      assert x == f + k * WORD_MAX;
      if f + w > WORD_MAX {
        assert x + w - 1 == (f + w - 1 - WORD_MAX) + (k + 1) * WORD_MAX;
        ModShift(f + w - 1 - WORD_MAX, k + 1);
      } else {
        assert x + w - 1 == (f + w - 1) + k * WORD_MAX;
        ModShift(f + w - 1, k);
      }
    } else if w != 0 {
      assert (w - 1) % WORD_MAX == w - 1;
    }
  }

  lemma {:induction false} FoldedEvenSum(d: seq<Byte>)
    requires |d| % 2 == 0
    ensures Folded(EvenSum(d)) == OnesSum(d)
    decreases |d|
  {
    if d != [] {
      FoldedEvenSum(d[..|d| - 2]);
      FoldedAdd(EvenSum(d[..|d| - 2]), WordAt(d, |d| - 2));
    }
  }

  /** An odd last byte is followed by a zero, as section 1 of RFC 1071 has it. */
  function PaddedToEven(d: seq<Byte>): (r: seq<Byte>)
    ensures |r| % 2 == 0
  {
    if |d| % 2 == 0 then d else d + [0]
  }

  /** Deferring the carries to the end gives the one's complement sum. */
  lemma FoldedSumIsOnesSum(d: seq<Byte>)
    ensures Folded(Sum(d)) == OnesSum(PaddedToEven(d))
  {
    FoldedEvenSum(PaddedToEven(d));
    if |d| % 2 == 1 {
      var p := d + [0];
      assert p[..|p| - 2] == d[..|d| - 1];
      assert WordAt(p, |p| - 2) == Word(d[|d| - 1], 0);
    }
  }

  // ------------------------------------------------------------- storing a word

  function Store(d: seq<Byte>, at: nat, v: nat): (r: seq<Byte>)
    requires at + 1 < |d| && v <= WORD_MAX
    ensures |r| == |d|
  {
    d[at := v / 256][at + 1 := v % 256]
  }

  lemma {:induction false} EvenSumStore(d: seq<Byte>, at: nat, v: nat)
    requires |d| % 2 == 0 && at % 2 == 0 && at + 1 < |d| && v <= WORD_MAX
    ensures EvenSum(Store(d, at, v)) == EvenSum(d) - WordAt(d, at) + v
    decreases |d|
  {
    var r := Store(d, at, v);
    if at == |d| - 2 {
      assert r[..|d| - 2] == d[..|d| - 2];
    } else {
      EvenSumStore(d[..|d| - 2], at, v);
      assert r[..|d| - 2] == Store(d[..|d| - 2], at, v);
    }
  }

  /** Replacing an aligned word changes the sum by the difference, at odd lengths too. */
  lemma SumStore(d: seq<Byte>, at: nat, v: nat)
    requires at % 2 == 0 && at + 1 < |d| && v <= WORD_MAX
    ensures Sum(Store(d, at, v)) == Sum(d) - WordAt(d, at) + v
  {
    if |d| % 2 == 0 {
      EvenSumStore(d, at, v);
    } else {
      EvenSumStore(d[..|d| - 1], at, v);
      assert Store(d, at, v)[..|d| - 1] == Store(d[..|d| - 1], at, v);
    }
  }

  /** Adding the complement of the folded sum makes the sum fold to all ones. */
  lemma ComplementFoldsToOnes(sum: nat)
    ensures Folded(sum + (WORD_MAX - Folded(sum))) == WORD_MAX
  {
    FoldedAdd(sum, WORD_MAX - Folded(sum));
  }

  /**
   What IP::write_serialization and ICMP::write_serialization do about the checksum
   of the first len bytes, with the field at offset at.
   */
  method WriteChecksum(buffer: array<Byte>, at: nat, len: nat)
    requires at % 2 == 0 && at + 1 < len <= buffer.Length && len <= MAX_LENGTH
    modifies buffer
    ensures Folded(Sum(buffer[..len])) == WORD_MAX
    ensures forall i :: 0 <= i < buffer.Length && i != at && i != at + 1 ==> buffer[i] == old(buffer[i])
  {
    buffer[at], buffer[at + 1] := 0, 0;
    ghost var d := buffer[..len];
    var check := DoChecksum(buffer, len);
    SumFits(d);
    check := Fold(check);
    var complement := WORD_MAX - check;
    buffer[at] := complement / 256;
    buffer[at + 1] := complement % 256;
    assert buffer[..len] == Store(d, at, complement);
    SumStore(d, at, complement);
    ComplementFoldsToOnes(Sum(d));
  }

  const IP_CHECK := 10
  const ICMP_CHECK := 2

  /** The IP header: twenty bytes and its options, padded to a multiple of four. */
  method WriteIpChecksum(buffer: array<Byte>, paddedOptions: nat, hasParent: bool)
    requires 20 + paddedOptions <= buffer.Length && paddedOptions <= 40
    modifies buffer
    ensures hasParent ==> Folded(Sum(buffer[..20 + paddedOptions])) == WORD_MAX
    ensures forall i :: 0 <= i < buffer.Length && i != IP_CHECK && i != IP_CHECK + 1 ==> buffer[i] == old(buffer[i])
    ensures !hasParent ==> buffer[IP_CHECK] == buffer[IP_CHECK + 1] == 0
  {
    buffer[IP_CHECK], buffer[IP_CHECK + 1] := 0, 0;
    if hasParent {
      WriteChecksum(buffer, IP_CHECK, 20 + paddedOptions);
    }
  }

  /** The whole ICMP message, of any length that fits an IP packet. */
  method WriteIcmpChecksum(buffer: array<Byte>)
    requires 8 <= buffer.Length <= 65535
    modifies buffer
    ensures Folded(Sum(buffer[..])) == WORD_MAX
    ensures forall i :: 0 <= i < buffer.Length && i != ICMP_CHECK && i != ICMP_CHECK + 1 ==> buffer[i] == old(buffer[i])
  {
    WriteChecksum(buffer, ICMP_CHECK, buffer.Length);
    assert buffer[..buffer.Length] == buffer[..];
  }

  /**
   A packet that checks still does after one word of it changed exactly if the word
   only went from one zero to the other; from all ones to zero that is noticed
   if the word was all the packet had.
   */
  lemma OneWordErrorIsDetected(d: seq<Byte>, at: nat, v: nat)
    requires at % 2 == 0 && at + 1 < |d| && v <= WORD_MAX && Folded(Sum(d)) == WORD_MAX
    ensures var w := WordAt(d, at);
            Folded(Sum(Store(d, at, v))) == WORD_MAX <==>
              || v == w
              || (v == WORD_MAX && w == 0)
              || (v == 0 && w == WORD_MAX && Sum(d) != WORD_MAX)
  {
    SumStore(d, at, v);
    var w := WordAt(d, at);
    if v >= w {
      FoldedAdd(Sum(d), v - w);
    } else if Sum(Store(d, at, v)) != 0 {
      FoldedAdd(Sum(Store(d, at, v)), w - v);
    }
  }
}
