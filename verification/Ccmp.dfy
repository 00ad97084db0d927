/**
 CCMP decryption of unicast 802.11 data frames, in place: the plaintext of each
 block is written eight bytes before the ciphertext it comes from, while the
 CBC-MAC runs along.  The block cipher is an arbitrary function of blocks.

 The reference is CCM as in sections 2.2 to 2.4 of RFC 3610, with M = 8 and L = 2.
 */
module Ccmp {

  type Byte = bv8
  type Bytes = seq<Byte>
  type Block = s: seq<Byte> | |s| == 16 witness [0, 0, 0, 0, 0, 0, 0, 0, 0, 0, 0, 0, 0, 0, 0, 0]
  type Cipher = Block -> Block

  datatype Option<T> = None | Some(value: T)

  // ------------------------------------------------------------------ exclusive or

  function XorByte(a: Byte, b: Byte): Byte { a ^ b }

  function Xor(a: Bytes, b: Bytes): (r: Bytes)
    requires |a| == |b|
    ensures |r| == |a| && forall i :: 0 <= i < |a| ==> r[i] == XorByte(a[i], b[i])
  {
    seq(|a|, i requires 0 <= i < |a| => XorByte(a[i], b[i]))
  }

  function XorBlock(a: Block, b: Block): Block { Xor(a, b) }

  /** d with x written over it from position at on. */
  function Splice(d: Bytes, at: nat, x: Bytes): (r: Bytes)
    requires at + |x| <= |d|
    ensures |r| == |d|
  {
    d[..at] + x + d[at + |x|..]
  }

  lemma SpliceIs(d: Bytes, d': Bytes, at: nat, x: Bytes)
    requires at + |x| <= |d| == |d'|
    requires forall k :: at <= k < at + |x| ==> d'[k] == x[k - at]
    requires forall k :: 0 <= k < |d| && !(at <= k < at + |x|) ==> d'[k] == d[k]
    ensures d' == Splice(d, at, x)
  {
    assert d' == d'[..at] + d'[at..at + |x|] + d'[at + |x|..];
    assert d'[..at] == d[..at] && d'[at..at + |x|] == x && d'[at + |x|..] == d[at + |x|..];
  }

  /** xor_range; the destination may overlap a source if it does not run ahead of it. */
  method XorRange(src1: array<Byte>, i1: nat, src2: array<Byte>, i2: nat, dst: array<Byte>, at: nat, sz: nat)
    requires i1 + sz <= src1.Length && i2 + sz <= src2.Length && at + sz <= dst.Length
    requires (dst == src1 ==> at <= i1) && (dst == src2 ==> at <= i2)
    modifies dst
    ensures dst[..] == Splice(old(dst[..]), at, Xor(old(src1[i1..i1 + sz]), old(src2[i2..i2 + sz])))
  {
    ghost var s1, s2 := src1[i1..i1 + sz], src2[i2..i2 + sz];
    for j := 0 to sz
      invariant forall k :: at <= k < at + j ==> dst[k] == XorByte(s1[k - at], s2[k - at])
      invariant forall k :: 0 <= k < dst.Length && !(at <= k < at + j) ==> dst[k] == old(dst[k])
    {
      assert s1[j] == src1[i1 + j] && s2[j] == src2[i2 + j];
      dst[at + j] := XorByte(src1[i1 + j], src2[i2 + j]);
    }
    SpliceIs(old(dst[..]), dst[..], at, Xor(s1, s2));
  }

  // ------------------------------------------------------------ the frame's header

  datatype Header = Header(
    protocol: Byte, frameType: Byte, subtype: Byte,  // of two, two and four bits
    toDs: bool, fromDs: bool, moreFrag: bool, order: bool,
    addr1: Bytes, addr2: Bytes, addr3: Bytes, addr4: Bytes,
    fragNum: Byte)
  {
    predicate Valid() { |addr1| == |addr2| == |addr3| == |addr4| == 6 }
  }

  const QOS_DATA_DATA: Byte := 8

  function Bit(b: bool, n: Byte): Byte { if b then n else 0 }

  function Zeros(n: nat): (r: Bytes)
    ensures |r| == n && forall i :: 0 <= i < n ==> r[i] == 0
  {
    if n == 0 then [] else Zeros(n - 1) + [0]
  }

  /** The additional authenticated data: header fields with the mutable bits masked. */
  function Aad(h: Header): Bytes { FixedPart(h) + OptionalPart(h) }

  function FixedPart(h: Header): Bytes {
    [FrameControl0(h), FrameControl1(h)] + h.addr1 + h.addr2 + h.addr3 + [h.fragNum, 0]
  }

  function OptionalPart(h: Header): Bytes {
    (if h.fromDs && h.toDs then h.addr4 else []) + (if h.subtype == QOS_DATA_DATA then [0, 0] else [])
  }

  function FrameControl0(h: Header): Byte {
    h.protocol | (h.frameType << 2) | ((h.subtype << 4) & 0x80)
  }

  function FrameControl1(h: Header): Byte {
    0x40 | Bit(h.toDs, 1) | Bit(h.fromDs, 2) | Bit(h.moreFrag, 4) | Bit(h.order, 0x80)
  }

  /** Section 2.2 of RFC 3610: a two-byte length, the data, and zeros up to a whole number of blocks. */
  function EncodedAad(h: Header): (r: Bytes)
    requires h.Valid()
    ensures |r| == 32
  {
    EncodeData(Aad(h))
  }

  function EncodeData(a: Bytes): (r: Bytes)
    requires |a| <= 30
    ensures |r| == 32
  {
    [0, |a| as bv8] + a + Zeros(30 - |a|)
  }

  method CopyAddress(addr: Bytes, dst: array<Byte>, at: nat)
    requires |addr| == 6 && at + 6 <= dst.Length
    modifies dst
    ensures dst[at..at + 6] == addr
    ensures forall k :: 0 <= k < dst.Length && !(at <= k < at + 6) ==> dst[k] == old(dst[k])
  {
    for j := 0 to 6
      invariant forall k :: at <= k < at + j ==> dst[k] == addr[k - at]
      invariant forall k :: 0 <= k < dst.Length && !(at <= k < at + j) ==> dst[k] == old(dst[k])
    {
      dst[at + j] := addr[j];
    }
  }

  /** The length byte as the source computes it. */
  function AadLength(h: Header): Byte {
    22 + (if h.fromDs && h.toDs then 6 else 0) + (if h.subtype == QOS_DATA_DATA then 2 else 0)
  }

  method FillAddresses(h: Header, aad: array<Byte>)
    requires h.Valid() && aad.Length == 32
    modifies aad
    ensures aad[4..10] == h.addr1 && aad[10..16] == h.addr2 && aad[16..22] == h.addr3
    ensures forall k :: 0 <= k < 32 && !(4 <= k < 22) ==> aad[k] == old(aad[k])
  {
    CopyAddress(h.addr1, aad, 4);
    CopyAddress(h.addr2, aad, 10);
    assert aad[4..10] == h.addr1;
    CopyAddress(h.addr3, aad, 16);
    assert aad[4..10] == h.addr1 && aad[10..16] == h.addr2;
  }

  method FillAad(h: Header) returns (aad: array<Byte>)
    requires h.Valid()
    ensures fresh(aad) && aad[..] == EncodedAad(h)
  {
    aad := new Byte[32](_ => 0);
    aad[1] := AadLength(h);
    aad[2], aad[3] := FrameControl0(h), FrameControl1(h);
    aad[22], aad[23] := h.fragNum, 0;
    FillAddresses(h, aad);
    ghost var a := aad[..];
    if h.fromDs && h.toDs {
      CopyAddress(h.addr4, aad, 24);
      assert aad[4..10] == a[4..10] && aad[10..16] == a[10..16] && aad[16..22] == a[16..22];
    }
    AadAt(h, aad[..]);
  }

  /** Entry by entry, the array the source fills is the encoding of the data. */
  lemma AadAt(h: Header, a: Bytes)
    requires h.Valid() && |a| == 32
    requires a[0] == 0 && a[1] == AadLength(h)
    requires a[2] == FrameControl0(h) && a[3] == FrameControl1(h)
    requires a[4..10] == h.addr1 && a[10..16] == h.addr2 && a[16..22] == h.addr3
    requires a[22] == h.fragNum && a[23] == 0
    requires h.fromDs && h.toDs ==> a[24..30] == h.addr4
    requires forall k :: (if h.fromDs && h.toDs then 30 else 24) <= k < 32 ==> a[k] == 0
    ensures a == EncodedAad(h)
  {
    AadLengthOk(h);
    Slices(a);
    OptionalAt(h, a[24..]);
    assert FixedPart(h) + (OptionalPart(h) + Zeros(8 - |OptionalPart(h)|)) == Aad(h) + Zeros(30 - |Aad(h)|);
  }

  lemma Slices(a: Bytes)
    requires |a| == 32
    ensures a == [a[0], a[1]] + (([a[2], a[3]] + a[4..10] + a[10..16] + a[16..22] + [a[22], a[23]]) + a[24..])
  {
  }

  lemma OptionalAt(h: Header, t: Bytes)
    requires h.Valid() && |t| == 8
    requires h.fromDs && h.toDs ==> t[..6] == h.addr4
    requires forall k :: (if h.fromDs && h.toDs then 6 else 0) <= k < 8 ==> t[k] == 0
    ensures t == OptionalPart(h) + Zeros(8 - |OptionalPart(h)|)
  {
    if h.fromDs && h.toDs {
      assert t == h.addr4 + [0, 0];
    }
  }

  lemma AadLengthOk(h: Header)
    requires h.Valid()
    ensures |Aad(h)| <= 30 && AadLength(h) == |Aad(h)| as bv8
    ensures |FixedPart(h)| == 22 && |OptionalPart(h)| <= 8
  {
  }

  // ------------------------------------------------------------------ the reference

  function ByteOf(n: nat): Byte { (n % 256) as bv8 }

  /** Priority, transmitter address and packet number. */
  function Nonce(h: Header, pload: Bytes): (r: Bytes)
    requires h.Valid() && |pload| >= 8
    ensures |r| == 13
  {
    [0] + h.addr2 + [pload[7], pload[6], pload[5], pload[4], pload[1], pload[0]]
  }

  /** B_0 of section 2.2: flags for M = 8, L = 2 and additional data, nonce, message length. */
  function FirstBlock(nonce: Bytes, len: nat): Block
    requires |nonce| == 13
  {
    [0x59] + nonce + [ByteOf(len / 256), ByteOf(len)]
  }

  /** A_i of section 2.3. */
  function CounterBlock(nonce: Bytes, i: nat): Block
    requires |nonce| == 13
  {
    [0x01] + nonce + [ByteOf(i / 256), ByteOf(i)]
  }

  function Padded(m: Bytes): Block
    requires |m| <= 16
  {
    m + Zeros(16 - |m|)
  }

  /** The n-th block of m, the last one padded with zeros. */
  function BlockAt(m: Bytes, n: nat): Block {
    if 16 * n + 16 <= |m| then m[16 * n..16 * n + 16]
    else if 16 * n <= |m| then Padded(m[16 * n..])
    else Padded([])
  }

  function MacStart(aes: Cipher, nonce: Bytes, len: nat, aad: Bytes): Block
    requires |nonce| == 13 && |aad| == 32
  {
    aes(XorBlock(aes(XorBlock(aes(FirstBlock(nonce, len)), aad[..16])), aad[16..]))
  }

  /** The CBC-MAC state after n blocks of m. */
  function MacBlocks(aes: Cipher, x: Block, m: Bytes, n: nat): Block {
    if n == 0 then x else MacStep(aes, MacBlocks(aes, x, m, n - 1), m, n - 1)
  }

  function MacStep(aes: Cipher, x: Block, m: Bytes, n: nat): Block { aes(XorBlock(x, BlockAt(m, n))) }

  /** How many blocks a message takes, the last one perhaps not full. */
  function NumBlocks(len: nat): nat {
    if len == 0 then 0 else if len <= 16 then 1 else 1 + NumBlocks(len - 16)
  }

  lemma {:induction false} NumBlocksIs(len: nat)
    ensures NumBlocks(len) == (len + 15) / 16
    ensures 16 * NumBlocks(len) - 16 < len || len == 0
    ensures len <= 16 * NumBlocks(len)
  {
    if len > 16 { NumBlocksIs(len - 16); }
  }

  function Tag(aes: Cipher, nonce: Bytes, aad: Bytes, m: Bytes): (t: Bytes)
    requires |nonce| == 13 && |aad| == 32
    ensures |t| == 8
  {
    MacBlocks(aes, MacStart(aes, nonce, |m|, aad), m, NumBlocks(|m|))[..8]
  }

  function KeyByte(aes: Cipher, nonce: Bytes, k: nat): Byte
    requires |nonce| == 13
  {
    aes(CounterBlock(nonce, k / 16 + 1))[k % 16]
  }

  /** Counter mode, out of place; the same function encrypts and decrypts. */
  function Ctr(aes: Cipher, nonce: Bytes, d: Bytes): (r: Bytes)
    requires |nonce| == 13
    ensures |r| == |d|
  {
    if d == [] then []
    else Ctr(aes, nonce, d[..|d| - 1]) + [XorByte(KeyByte(aes, nonce, |d| - 1), d[|d| - 1])]
  }

  lemma {:induction false} CtrAt(aes: Cipher, nonce: Bytes, d: Bytes, k: nat)
    requires |nonce| == 13 && k < |d|
    ensures Ctr(aes, nonce, d)[k] == XorByte(KeyByte(aes, nonce, k), d[k])
    decreases |d|
  {
    if k < |d| - 1 { CtrAt(aes, nonce, d[..|d| - 1], k); }
  }

  function TagMask(aes: Cipher, nonce: Bytes): (r: Bytes)
    requires |nonce| == 13
    ensures |r| == 8
  {
    aes(CounterBlock(nonce, 0))[..8]
  }

  /** Sections 2.3 and 2.4: ciphertext followed by the encrypted tag. */
  function Seal(aes: Cipher, nonce: Bytes, aad: Bytes, m: Bytes): Bytes
    requires |nonce| == 13 && |aad| == 32
  {
    Ctr(aes, nonce, m) + Xor(TagMask(aes, nonce), Tag(aes, nonce, aad, m))
  }

  function Open(aes: Cipher, nonce: Bytes, aad: Bytes, sealed: Bytes): Option<Bytes>
    requires |nonce| == 13 && |aad| == 32 && |sealed| >= 8
  {
    var m := Ctr(aes, nonce, sealed[..|sealed| - 8]);
    if Xor(TagMask(aes, nonce), sealed[|sealed| - 8..]) == Tag(aes, nonce, aad, m) then Some(m) else None
  }

  lemma XorCancels(a: Bytes, b: Bytes)
    requires |a| == |b|
    ensures Xor(a, Xor(a, b)) == b
  {
    forall i | 0 <= i < |a| ensures XorByte(a[i], XorByte(a[i], b[i])) == b[i] {}
  }

  lemma CtrTwice(aes: Cipher, nonce: Bytes, d: Bytes)
    requires |nonce| == 13
    ensures Ctr(aes, nonce, Ctr(aes, nonce, d)) == d
  {
    var e := Ctr(aes, nonce, d);
    forall k | 0 <= k < |d| ensures Ctr(aes, nonce, e)[k] == d[k] {
      CtrAt(aes, nonce, d, k);
      CtrAt(aes, nonce, e, k);
      XorByteCancels(KeyByte(aes, nonce, k), d[k]);
    }
  }

  lemma XorByteCancels(a: Byte, b: Byte)
    ensures XorByte(a, XorByte(a, b)) == b
  {
  }

  /** For any block function, exactly the sealed form of m opens as m. */
  lemma OpensIffSealed(aes: Cipher, nonce: Bytes, aad: Bytes, sealed: Bytes, m: Bytes)
    requires |nonce| == 13 && |aad| == 32 && |sealed| >= 8
    ensures Open(aes, nonce, aad, sealed) == Some(m) <==> sealed == Seal(aes, nonce, aad, m)
  {
    var n := |sealed| - 8;
    var mask := TagMask(aes, nonce);
    if Open(aes, nonce, aad, sealed) == Some(m) {
      CtrTwice(aes, nonce, sealed[..n]);
      XorCancels(mask, sealed[n..]);
      assert sealed == sealed[..n] + sealed[n..];
    }
    if sealed == Seal(aes, nonce, aad, m) {
      assert sealed[..n] == Ctr(aes, nonce, m) && sealed[n..] == Xor(mask, Tag(aes, nonce, aad, m));
      CtrTwice(aes, nonce, m);
      XorCancels(mask, Tag(aes, nonce, aad, m));
    }
  }

  // ----------------------------------------------------------------- the loop in place

  /** AES_encrypt; input and output may be the same array. */
  method Encrypt(aes: Cipher, input: array<Byte>, output: array<Byte>)
    requires input.Length == output.Length == 16
    modifies output
    ensures output[..] == aes(old(input[..]))
  {
    var b := aes(input[..]);
    forall k | 0 <= k < 16 {
      output[k] := b[k];
    }
  }

  /** The key stream block of round i. */
  method NextKey(aes: Cipher, i: nat, counter: array<Byte>, crypted: array<Byte>, ghost nonce: Bytes)
    requires |nonce| == 13 && counter.Length == crypted.Length == 16 && counter != crypted
    requires counter[..14] == [0x01] + nonce
    modifies counter, crypted
    ensures counter[..14] == [0x01] + nonce && crypted[..] == aes(CounterBlock(nonce, i))
  {
    counter[14], counter[15] := ByteOf(i / 256), ByteOf(i);
    assert counter[..] == counter[..14] + [counter[14], counter[15]] == CounterBlock(nonce, i);
    Encrypt(aes, counter, crypted);
  }

  /** Add sz bytes of the payload to the MAC. */
  method AbsorbPlain(aes: Cipher, mic: array<Byte>, pload: array<Byte>, at: nat, sz: nat)
    requires mic.Length == 16 && sz <= 16 && at + sz <= pload.Length && mic != pload
    modifies mic
    ensures mic[..] == aes(XorBlock(old(mic[..]), Padded(pload[at..at + sz])))
  {
    ghost var before := mic[..];
    XorRange(mic, 0, pload, at, mic, 0, sz);
    XorPadded(before, pload[at..at + sz]);
    assert before[0..sz] == before[..sz];
    Encrypt(aes, mic, mic);
  }

  lemma XorPadded(x: Block, m: Bytes)
    requires |m| <= 16
    ensures Splice(x, 0, Xor(x[..|m|], m)) == XorBlock(x, Padded(m))
  {
    var l, r := Splice(x, 0, Xor(x[..|m|], m)), XorBlock(x, Padded(m));
    forall k | 0 <= k < 16 ensures l[k] == r[k] {
      if k >= |m| { XorZero(x[k]); }
    }
  }

  lemma XorZero(b: Byte)
    ensures XorByte(b, 0) == b
  {
  }

  /** Where round i (from 1) starts. */
  function StartOf(i: nat, total: nat): nat
    requires i >= 1
  {
    if 16 * (i - 1) <= total then 16 * (i - 1) else total
  }

  lemma DivMod16(q: nat, k: nat)
    requires k < 16
    ensures (16 * q + k) / 16 == q && (16 * q + k) % 16 == k
  {
  }

  lemma KeyByteAt(aes: Cipher, nonce: Bytes, i: nat, k: nat, at: nat)
    requires |nonce| == 13 && i >= 1 && k < 16 && at == 16 * (i - 1) + k
    ensures KeyByte(aes, nonce, at) == aes(CounterBlock(nonce, i))[k]
  {
    DivMod16(i - 1, k);
  }

  lemma CtrInRound(aes: Cipher, nonce: Bytes, d: Bytes, i: nat, k: nat, at: nat)
    requires |nonce| == 13 && i >= 1 && k < 16 && at == 16 * (i - 1) + k < |d|
    ensures Ctr(aes, nonce, d)[at] == XorByte(aes(CounterBlock(nonce, i))[k], d[at])
  {
    CtrAt(aes, nonce, d, at);
    KeyByteAt(aes, nonce, i, k, at);
  }

  /** The bytes of round i. */
  function RoundSize(i: nat, total: nat): nat
    requires 1 <= i <= NumBlocks(total)
  {
    NumBlocksIs(total);
    if 16 * i <= total then 16 else total - 16 * (i - 1)
  }

  /** The size of round i as the loop computes it. */
  method SizeOfRound(i: nat, blocks: nat, total: nat) returns (sz: nat)
    requires blocks == NumBlocks(total) && 1 <= i <= blocks
    ensures sz == RoundSize(i, total)
  {
    NumBlocksIs(total);
    sz := if i == blocks then total % 16 else 16;
    if sz == 0 {
      sz := 16;
    }
  }

  lemma RoundFacts(i: nat, total: nat)
    requires 1 <= i <= NumBlocks(total)
    ensures var sz := RoundSize(i, total);
            && StartOf(i, total) == 16 * (i - 1) && StartOf(i + 1, total) == 16 * (i - 1) + sz <= total
            && 1 <= sz <= 16 && (sz == 16 || 16 * (i - 1) + sz == total)
  {
    NumBlocksIs(total);
  }

  /** In round i, m is the ciphertext ct with the i-th key stream block added. */
  ghost predicate PlainInRound(aes: Cipher, nonce: Bytes, ct: Bytes, m: Bytes, i: nat)
    requires |nonce| == 13 && |m| == |ct| && 1 <= i <= NumBlocks(|m|)
  {
    RoundFacts(i, |m|);
    var at, sz := StartOf(i, |m|), RoundSize(i, |m|);
    m[at..at + sz] == Xor(aes(CounterBlock(nonce, i))[..sz], ct[at..at + sz])
  }

  lemma CtrIsPlain(aes: Cipher, nonce: Bytes, ct: Bytes, i: nat)
    requires |nonce| == 13 && 1 <= i <= NumBlocks(|ct|)
    ensures PlainInRound(aes, nonce, ct, Ctr(aes, nonce, ct), i)
  {
    RoundFacts(i, |ct|);
    var at, sz := StartOf(i, |ct|), RoundSize(i, |ct|);
    var key, m := aes(CounterBlock(nonce, i)), Ctr(aes, nonce, ct);
    forall j | at <= j < at + sz ensures m[j] == XorByte(key[j - at], ct[j]) {
      CtrInRound(aes, nonce, ct, i, j - at, j);
    }
    XorSlices(m, key, ct, at, sz);
  }

  lemma XorSlices(m: Bytes, key: Bytes, ct: Bytes, at: nat, sz: nat)
    requires at + sz <= |m| == |ct| && sz <= |key|
    requires forall j :: at <= j < at + sz ==> m[j] == XorByte(key[j - at], ct[j])
    ensures m[at..at + sz] == Xor(key[..sz], ct[at..at + sz])
  {
  }

  /** The payload before the round at position at: plaintext m as far as it got, the rest as it was. */
  function Mixed(m: Bytes, p0: Bytes, at: nat): (r: Bytes)
    requires at <= |m| <= |p0|
    ensures |r| == |p0|
  {
    m[..at] + p0[at..]
  }

  /** The round writes eight bytes before where it reads, so it reads what was there at first. */
  lemma MixedAhead(m: Bytes, p0: Bytes, at: nat, sz: nat)
    requires at <= |m| <= |p0| && at + sz + 16 <= |p0|
    ensures Mixed(m, p0, at)[at + 8..at + 8 + sz] == p0[8..|p0| - 8][at..at + sz]
  {
    var l, r := Mixed(m, p0, at)[at + 8..at + 8 + sz], p0[8..|p0| - 8][at..at + sz];
    forall k | 0 <= k < sz ensures l[k] == r[k] {
      assert l[k] == Mixed(m, p0, at)[at + 8 + k] == p0[at + 8 + k];
    }
  }

  lemma MixedSplice(m: Bytes, p0: Bytes, at: nat, sz: nat)
    requires at + sz <= |m| <= |p0|
    ensures Splice(Mixed(m, p0, at), at, m[at..at + sz]) == Mixed(m, p0, at + sz)
  {
    assert m[..at + sz] == m[..at] + m[at..at + sz];
  }

  /** What a round writes over the payload is its part of the plaintext. */
  lemma MixedRound(m: Bytes, p0: Bytes, at: nat, sz: nat, key: Bytes, d: Bytes, d': Bytes)
    requires |key| == sz && at + sz <= |m| && |m| + 16 == |p0| && d == Mixed(m, p0, at)
    requires m[at..at + sz] == Xor(key, p0[8..|p0| - 8][at..at + sz])
    requires d' == Splice(d, at, Xor(key, d[at + 8..at + 8 + sz]))
    ensures d' == Mixed(m, p0, at + sz)
  {
    MixedAhead(m, p0, at, sz);
    MixedSplice(m, p0, at, sz);
  }

  /** The key stream is added to sz bytes, which move eight bytes forward. */
  method XorPayload(crypted: array<Byte>, at: nat, sz: nat, pload: array<Byte>, ghost m: Bytes, ghost p0: Bytes)
    requires crypted.Length == 16 && crypted != pload
    requires sz <= 16 && at + sz <= |m| && |m| + 16 == |p0| == pload.Length
    requires pload[..] == Mixed(m, p0, at)
    requires m[at..at + sz] == Xor(crypted[..][..sz], p0[8..|p0| - 8][at..at + sz])
    modifies pload
    ensures pload[..] == Mixed(m, p0, at + sz)
  {
    ghost var d, key := pload[..], crypted[..][..sz];
    assert crypted[0..sz] == key && pload[at + 8..at + 8 + sz] == d[at + 8..at + 8 + sz];
    XorRange(crypted, 0, pload, at + 8, pload, at, sz);
    MixedRound(m, p0, at, sz, key, d, pload[..]);
  }

  /** sz bytes are decrypted, written at `at` and read eight bytes further on. */
  method DecryptPayload(aes: Cipher, i: nat, at: nat, sz: nat, counter: array<Byte>, pload: array<Byte>,
                        ghost nonce: Bytes, ghost m: Bytes, ghost p0: Bytes)
    requires |nonce| == 13 && counter.Length == 16 && counter[..14] == [0x01] + nonce
    requires sz <= 16 && at + sz <= |m| && |m| + 16 == |p0| == pload.Length
    requires pload[..] == Mixed(m, p0, at)
    requires m[at..at + sz] == Xor(aes(CounterBlock(nonce, i))[..sz], p0[8..|p0| - 8][at..at + sz])
    requires counter != pload
    modifies counter, pload
    ensures counter[..14] == [0x01] + nonce
    ensures pload[..] == Mixed(m, p0, at + sz)
  {
    var crypted := new Byte[16];
    NextKey(aes, i, counter, crypted, nonce);
    XorPayload(crypted, at, sz, pload, m, p0);
  }

  /** One round: decrypt sz bytes and add them to the MAC. */
  method DecryptBytes(aes: Cipher, i: nat, at: nat, sz: nat,
                      counter: array<Byte>, pload: array<Byte>, mic: array<Byte>,
                      ghost nonce: Bytes, ghost m: Bytes, ghost p0: Bytes)
    requires |nonce| == 13 && counter.Length == mic.Length == 16 && counter[..14] == [0x01] + nonce
    requires sz <= 16 && at + sz <= |m| && |m| + 16 == |p0| == pload.Length
    requires pload[..] == Mixed(m, p0, at)
    requires m[at..at + sz] == Xor(aes(CounterBlock(nonce, i))[..sz], p0[8..|p0| - 8][at..at + sz])
    requires counter != pload && counter != mic && mic != pload
    modifies counter, pload, mic
    ensures counter[..14] == [0x01] + nonce
    ensures pload[..] == Mixed(m, p0, at + sz)
    ensures mic[..] == aes(XorBlock(old(mic[..]), Padded(m[at..at + sz])))
  {
    DecryptPayload(aes, i, at, sz, counter, pload, nonce, m, p0);
    assert pload[at..at + sz] == m[at..at + sz] by {
      MixedSlice(m, p0, at, sz);
      assert pload[at..at + sz] == pload[..][at..at + sz];
    }
    AbsorbPlain(aes, mic, pload, at, sz);
  }

  lemma MixedSlice(m: Bytes, p0: Bytes, at: nat, sz: nat)
    requires at + sz <= |m| <= |p0|
    ensures Mixed(m, p0, at + sz)[at..at + sz] == m[at..at + sz]
  {
  }

  /** The round at a position: whole, or the last one. */
  predicate IsRound(i: nat, at: nat, sz: nat, total: nat) {
    i >= 1 && at == 16 * (i - 1) && 1 <= sz <= 16 && at + sz <= total && (sz == 16 || at + sz == total)
  }

  /** Round i of the block loop. */
  method Round(aes: Cipher, i: nat, at: nat, sz: nat, counter: array<Byte>, pload: array<Byte>, mic: array<Byte>,
               ghost nonce: Bytes, ghost m: Bytes, ghost p0: Bytes)
    requires |nonce| == 13 && counter.Length == mic.Length == 16 && counter[..14] == [0x01] + nonce
    requires |m| + 16 == pload.Length == |p0| && IsRound(i, at, sz, |m|)
    requires m[at..at + sz] == Xor(aes(CounterBlock(nonce, i))[..sz], p0[8..|p0| - 8][at..at + sz])
    requires pload[..] == Mixed(m, p0, at)
    requires counter != pload && counter != mic && mic != pload
    modifies counter, pload, mic
    ensures counter[..14] == [0x01] + nonce
    ensures pload[..] == Mixed(m, p0, at + sz)
    ensures mic[..] == MacStep(aes, old(mic[..]), m, i - 1)
  {
    DecryptBytes(aes, i, at, sz, counter, pload, mic, nonce, m, p0);
    LastBlock(m, i - 1, sz);
  }

  /** The plaintext of the first n rounds is right. */
  ghost predicate PlainUpTo(aes: Cipher, nonce: Bytes, ct: Bytes, m: Bytes, n: nat)
    requires |nonce| == 13 && |m| == |ct| && n <= NumBlocks(|m|)
  {
    n > 0 ==> PlainInRound(aes, nonce, ct, m, n) && PlainUpTo(aes, nonce, ct, m, n - 1)
  }

  lemma {:induction false} PlainRound(aes: Cipher, nonce: Bytes, ct: Bytes, m: Bytes, n: nat, i: nat, at: nat, sz: nat)
    requires |nonce| == 13 && |m| == |ct| && 1 <= i <= n <= NumBlocks(|m|) && PlainUpTo(aes, nonce, ct, m, n)
    requires at == StartOf(i, |m|) && sz == RoundSize(i, |m|)
    ensures IsRound(i, at, sz, |m|) && StartOf(i + 1, |m|) == at + sz
    ensures m[at..at + sz] == Xor(aes(CounterBlock(nonce, i))[..sz], ct[at..at + sz])
    decreases n
  {
    RoundFacts(i, |m|);
    if i < n { PlainRound(aes, nonce, ct, m, n - 1, i, at, sz); }
  }

  lemma {:induction false} CtrIsPlainUpTo(aes: Cipher, nonce: Bytes, ct: Bytes, n: nat)
    requires |nonce| == 13 && n <= NumBlocks(|ct|)
    ensures PlainUpTo(aes, nonce, ct, Ctr(aes, nonce, ct), n)
  {
    if n > 0 {
      CtrIsPlain(aes, nonce, ct, n);
      CtrIsPlainUpTo(aes, nonce, ct, n - 1);
    }
  }

  /** The arrays after n rounds, of which the last ended at a position. */
  ghost predicate AfterRounds(aes: Cipher, n: nat, at: nat, counter: array<Byte>, pload: array<Byte>, mic: array<Byte>,
                              nonce: Bytes, m: Bytes, p0: Bytes, x: Block)
    reads counter, pload, mic
  {
    && |nonce| == 13 && counter.Length == mic.Length == 16 && counter[..14] == [0x01] + nonce
    && |m| + 16 == |p0| == pload.Length && at == StartOf(n + 1, |m|) && pload[..] == Mixed(m, p0, at)
    && mic[..] == MacBlocks(aes, x, m, n)
  }

  /** One time round the loop, given that m is the plaintext round by round. */
  method NextRound(aes: Cipher, i: nat, at: nat, blocks: nat, total: nat,
                   counter: array<Byte>, pload: array<Byte>, mic: array<Byte>,
                   ghost nonce: Bytes, ghost m: Bytes, ghost p0: Bytes, ghost x: Block) returns (at': nat)
    requires i >= 1 && AfterRounds(aes, i - 1, at, counter, pload, mic, nonce, m, p0, x)
    requires total == |m| && blocks == NumBlocks(total) && i <= blocks
    requires PlainUpTo(aes, nonce, p0[8..|p0| - 8], m, blocks)
    requires counter != pload && counter != mic && mic != pload
    modifies counter, pload, mic
    ensures AfterRounds(aes, i, at', counter, pload, mic, nonce, m, p0, x)
  {
    var sz := SizeOfRound(i, blocks, total);
    PlainRound(aes, nonce, p0[8..|p0| - 8], m, blocks, i, at, sz);
    Round(aes, i, at, sz, counter, pload, mic, nonce, m, p0);
    at' := at + sz;
  }

  /** The block loop, for any m that is the plaintext round by round. */
  method Rounds(aes: Cipher, blocks: nat, total: nat, counter: array<Byte>, pload: array<Byte>, mic: array<Byte>,
                ghost nonce: Bytes, ghost m: Bytes, ghost p0: Bytes, ghost x: Block)
    requires AfterRounds(aes, 0, 0, counter, pload, mic, nonce, m, p0, x)
    requires total == |m| && blocks == NumBlocks(total) && PlainUpTo(aes, nonce, p0[8..|p0| - 8], m, blocks)
    requires counter != pload && counter != mic && mic != pload
    modifies counter, pload, mic
    ensures AfterRounds(aes, blocks, total, counter, pload, mic, nonce, m, p0, x)
  {
    var at := 0;
    for i := 1 to blocks + 1
      invariant AfterRounds(aes, i - 1, at, counter, pload, mic, nonce, m, p0, x)
    {
      at := NextRound(aes, i, at, blocks, total, counter, pload, mic, nonce, m, p0, x);
    }
    StartAndEnd(total);
  }

  lemma StartAndEnd(total: nat)
    ensures StartOf(1, total) == 0 && StartOf(NumBlocks(total) + 1, total) == total
  {
    NumBlocksIs(total);
  }

  /** The loop computes the counter-mode plaintext and the MAC of the whole of it. */
  method DecryptBlocks(aes: Cipher, total: nat, counter: array<Byte>, pload: array<Byte>, mic: array<Byte>,
                       ghost nonce: Bytes)
    requires |nonce| == 13 && counter.Length == mic.Length == 16 && counter[..14] == [0x01] + nonce
    requires total + 16 == pload.Length
    requires counter != pload && counter != mic && mic != pload
    modifies counter, pload, mic
    ensures pload[..total] == Ctr(aes, nonce, old(pload[8..8 + total]))
    ensures mic[..] == MacBlocks(aes, old(mic[..]), pload[..total], NumBlocks(total))
  {
    ghost var p0 := pload[..];
    ghost var ct := p0[8..|p0| - 8];
    ghost var m := Ctr(aes, nonce, ct);
    CtrIsPlainUpTo(aes, nonce, ct, NumBlocks(total));
    assert ct == pload[8..8 + total] && p0 == Mixed(m, p0, 0);
    NumBlocksIs(total);
    Rounds(aes, (total + 15) / 16, total, counter, pload, mic, nonce, m, p0, mic[..]);
    assert pload[..total] == pload[..][..total] == m;
  }

  lemma LastBlock(m: Bytes, n: nat, sz: nat)
    requires 1 <= sz <= 16 && 16 * n + sz <= |m| && (16 * n + sz == |m| || sz == 16)
    ensures BlockAt(m, n) == Padded(m[16 * n..16 * n + sz])
  {
    if sz < 16 {
      assert m[16 * n..] == m[16 * n..16 * n + sz];
    }
  }

  /** The tag at the end of the payload, unmasked. */
  method UnmaskTag(aes: Cipher, counter: array<Byte>, pload: array<Byte>, ghost nonce: Bytes) returns (tag: array<Byte>)
    requires |nonce| == 13 && counter.Length == 16 && counter[..] == CounterBlock(nonce, 0) && pload.Length >= 8
    ensures fresh(tag) && tag.Length == 8
    ensures tag[..] == Xor(TagMask(aes, nonce), pload[pload.Length - 8..])
  {
    var crypted := new Byte[16];
    Encrypt(aes, counter, crypted);
    tag := new Byte[8];
    XorRange(crypted, 0, pload, pload.Length - 8, tag, 0, 8);
    assert crypted[0..8] == crypted[..][..8];
    assert pload[pload.Length - 8..pload.Length] == pload[pload.Length - 8..];
  }

  /** The plaintext, if the two tags are equal. */
  function Accept(m: Bytes, tag: Bytes, expected: Bytes): Option<Bytes> {
    if tag == expected then Some(m) else None
  }

  lemma OpenIs(aes: Cipher, nonce: Bytes, aad: Bytes, sealed: Bytes, total: nat)
    requires |nonce| == 13 && |aad| == 32 && |sealed| == total + 8
    ensures var m := Ctr(aes, nonce, sealed[..total]);
            var mac := MacBlocks(aes, MacStart(aes, nonce, total, aad), m, NumBlocks(total));
            Open(aes, nonce, aad, sealed) == Accept(m, Xor(TagMask(aes, nonce), sealed[total..]), mac[..8])
  {
  }

  /** ccmp_decrypt_unicast; a payload shorter than header and tag has no defined treatment in the source. */
  method Decrypt(aes: Cipher, h: Header, pload: array<Byte>) returns (r: Option<Bytes>)
    requires h.Valid() && pload.Length >= 16
    modifies pload
    ensures r == Open(aes, Nonce(h, old(pload[..])), EncodedAad(h), old(pload[8..]))
    ensures pload[..pload.Length - 16] == Ctr(aes, Nonce(h, old(pload[..])), old(pload[8..pload.Length - 8]))
  {
    var total := pload.Length - 16;
    var nonce := Nonce(h, pload[..]);
    var aad := FillAad(h);
    var mic, counter := StartMac(aes, nonce, total, aad);
    var niceMic := UnmaskTag(aes, counter, pload, nonce);
    ghost var sealed := pload[8..];
    assert pload[pload.Length - 8..] == sealed[total..] && pload[8..8 + total] == sealed[..total];
    DecryptBlocks(aes, total, counter, pload, mic, nonce);
    OpenIs(aes, nonce, EncodedAad(h), sealed, total);
    assert mic[..8] == mic[..][..8];
    r := Accept(pload[..total], niceMic[..], mic[..8]);
  }

  /** The MAC of B_0 and the additional data, and the counter block for the tag. */
  method StartMac(aes: Cipher, nonce: Bytes, total: nat, aad: array<Byte>)
    returns (mic: array<Byte>, counter: array<Byte>)
    requires |nonce| == 13 && aad.Length == 32
    ensures fresh(mic) && fresh(counter) && mic != counter && mic.Length == counter.Length == 16
    ensures mic[..] == MacStart(aes, nonce, total, aad[..])
    ensures counter[..] == CounterBlock(nonce, 0)
  {
    mic := new Byte[16](_ => 0);
    var first := FirstBlock(nonce, total);
    counter := new Byte[16](k requires 0 <= k < 16 => first[k]);
    assert counter[..] == first;
    Encrypt(aes, counter, mic);
    Absorb(aes, mic, aad, 0);
    Absorb(aes, mic, aad, 16);
    assert aad[..][..16] == aad[0..16] && aad[..][16..] == aad[16..32];
    ResetCounter(counter, nonce, total);
  }

  method ResetCounter(counter: array<Byte>, ghost nonce: Bytes, ghost total: nat)
    requires |nonce| == 13 && counter.Length == 16 && counter[..] == FirstBlock(nonce, total)
    modifies counter
    ensures counter[..] == CounterBlock(nonce, 0)
  {
    counter[0] := 1;
    counter[14], counter[15] := 0, 0;
    assert counter[1..14] == FirstBlock(nonce, total)[1..14] == nonce;
    assert counter[..] == [counter[0]] + counter[1..14] + [counter[14], counter[15]];
  }

  /** Add one block to the MAC. */
  method Absorb(aes: Cipher, mic: array<Byte>, src: array<Byte>, at: nat)
    requires mic.Length == 16 && at + 16 <= src.Length && mic != src
    modifies mic
    ensures mic[..] == aes(XorBlock(old(mic[..]), src[at..at + 16]))
  {
    AbsorbPlain(aes, mic, src, at, 16);
    assert Padded(src[at..at + 16]) == src[at..at + 16];
  }
}
