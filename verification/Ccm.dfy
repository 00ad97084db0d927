/**
 CCM as RFC 3610 writes it, for M = 8 and L = 2: a CBC-MAC over a list of blocks
 and a key stream of numbered blocks.  What the module Ccmp seals and opens is
 proved to be this.
 */
module Ccm {
  import opened Ccmp

  const M := 8
  const L := 2

  /** A number written in k digits to the base 256, most significant first. */
  function Digits(n: nat, k: nat): (r: seq<nat>)
    ensures |r| == k && forall i :: 0 <= i < k ==> r[i] < 256
  {
    if k == 0 then [] else Digits(n / 256, k - 1) + [n % 256]
  }

  function Value(digits: seq<nat>): nat {
    if digits == [] then 0 else 256 * Value(digits[..|digits| - 1]) + digits[|digits| - 1]
  }

  /** Two digits hold every number below 65536. */
  lemma TwoDigitsHold(n: nat)
    requires n < 0x1_0000
    ensures Value(Digits(n, 2)) == n
  {
    var high, low := n / 256, n % 256;
    assert high % 256 == high && Digits(high, 1) == Digits(high / 256, 0) + [high] == [high];
    assert Digits(n, 2) == [high, low] && [high, low][..1] == [high] && [high][..0] == [];
    assert Value([high]) == 256 * Value([]) + high;
  }

  /** The octets of a number: its digits, each in a byte. */
  function Octets(n: nat, k: nat): (r: Bytes)
    ensures |r| == k && forall i :: 0 <= i < k ==> r[i] == Digits(n, k)[i] as Byte
  {
    if k == 0 then [] else Octets(n / 256, k - 1) + [(n % 256) as Byte]
  }

  lemma TwoOctets(n: nat)
    ensures Octets(n, 2) == [ByteOf(n / 256), ByteOf(n)]
  {
    assert Octets(n / 256, 1) == Octets(n / 256 / 256, 0) + [ByteOf(n / 256)];
  }

  /** The flags octet of B_0, in section 2.2. */
  function MacFlags(adata: bool): nat { (if adata then 64 else 0) + 8 * ((M - 2) / 2) + (L - 1) }

  /** The flags octet of A_i, in section 2.3. */
  function CounterFlags(): nat { L - 1 }

  /** B_0: flags, nonce, and the length of the message in L octets. */
  function B0(nonce: Bytes, len: nat): Block
    requires |nonce| == 15 - L
  {
    [MacFlags(true) as Byte] + nonce + Octets(len, L)
  }

  /** A_i: flags, nonce, and the counter in L octets. */
  function A(nonce: Bytes, i: nat): Block
    requires |nonce| == 15 - L
  {
    [CounterFlags() as Byte] + nonce + Octets(i, L)
  }

  lemma FlagsAre()
    ensures MacFlags(true) as Byte == 0x59 && CounterFlags() as Byte == 0x01
  {
    assert MacFlags(true) == 0x59 && CounterFlags() == 0x01;
  }

  lemma BlocksAreStandard(nonce: Bytes, n: nat)
    requires |nonce| == 13
    ensures FirstBlock(nonce, n) == B0(nonce, n) && CounterBlock(nonce, n) == A(nonce, n)
  {
    TwoOctets(n);
    FlagsAre();
  }

  // ------------------------------------------------------------------- the CBC-MAC

  /** The data in blocks of sixteen octets, the last one filled up with zeros. */
  function Pieces(d: Bytes): seq<Block>
    decreases |d|
  {
    if d == [] then []
    else if |d| <= 16 then [Padded(d)]
    else [d[..16]] + Pieces(d[16..])
  }

  /** Each block is added to the last result, which starts from zero, and then enciphered. */
  function CbcMac(aes: Cipher, blocks: seq<Block>): Block {
    if blocks == [] then Padded([])
    else aes(XorBlock(CbcMac(aes, blocks[..|blocks| - 1]), blocks[|blocks| - 1]))
  }

  /** Section 2.2: the blocks that authenticate additional data a, which is not empty, and a message m. */
  function Blocks(nonce: Bytes, a: Bytes, m: Bytes): seq<Block>
    requires |nonce| == 13
  {
    [B0(nonce, |m|)] + Pieces(Octets(|a|, 2) + a) + Pieces(m)
  }

  function StandardTag(aes: Cipher, nonce: Bytes, a: Bytes, m: Bytes): (t: Bytes)
    requires |nonce| == 13
    ensures |t| == M
  {
    CbcMac(aes, Blocks(nonce, a, m))[..M]
  }

  lemma XorZeroBlock(x: Block)
    ensures XorBlock(Padded([]), x) == x
  {
    var zeros := Padded([]);
    forall i | 0 <= i < 16 ensures XorByte(zeros[i], x[i]) == x[i] {
      ZeroXor(x[i]);
    }
  }

  lemma ZeroXor(b: Byte)
    ensures XorByte(0, b) == b
  {
  }

  lemma CbcMacNext(aes: Cipher, blocks: seq<Block>, x: Block)
    ensures CbcMac(aes, blocks + [x]) == aes(XorBlock(CbcMac(aes, blocks), x))
  {
    assert (blocks + [x])[..|blocks|] == blocks;
  }

  /** The start of the MAC is that of B_0 and the two blocks of the encoded additional data. */
  lemma MacStartIsCbcMac(aes: Cipher, nonce: Bytes, len: nat, aad: Bytes)
    requires |nonce| == 13 && |aad| == 32
    ensures MacStart(aes, nonce, len, aad) == CbcMac(aes, [FirstBlock(nonce, len)] + [aad[..16]] + [aad[16..]])
  {
    var first := FirstBlock(nonce, len);
    XorZeroBlock(first);
    assert [first] == [] + [first];
    CbcMacNext(aes, [], first);
    CbcMacNext(aes, [first], aad[..16]);
    CbcMacNext(aes, [first] + [aad[..16]], aad[16..]);
  }

  lemma PiecesOfTwo(d: Bytes)
    requires 16 < |d| <= 32
    ensures Pieces(d) == [d[..16]] + [Padded(d[16..])]
  {
    assert Pieces(d[16..]) == [Padded(d[16..])];
  }

  lemma FilledUp(d: Bytes)
    requires 16 < |d| <= 32
    ensures (d + Zeros(32 - |d|))[..16] == d[..16] && (d + Zeros(32 - |d|))[16..] == Padded(d[16..])
  {
  }

  lemma EncodeDataIs(a: Bytes)
    requires |a| <= 30
    ensures EncodeData(a) == Octets(|a|, 2) + a + Zeros(30 - |a|)
  {
    TwoOctets(|a|);
    assert |a| / 256 == 0 && |a| % 256 == |a|;
  }

  /** The encoded additional data in two blocks. */
  lemma EncodedPieces(a: Bytes)
    requires 14 < |a| <= 30
    ensures Pieces(Octets(|a|, 2) + a) == [EncodeData(a)[..16]] + [EncodeData(a)[16..]]
  {
    var d := Octets(|a|, 2) + a;
    EncodeDataIs(a);
    PiecesOfTwo(d);
    FilledUp(d);
  }

  /** Piece by piece, the message is absorbed block by block. */
  lemma {:induction false} PieceIs(m: Bytes, n: nat)
    ensures |Pieces(m)| == NumBlocks(|m|)
    ensures n < NumBlocks(|m|) ==> Pieces(m)[n] == BlockAt(m, n)
    decreases |m|
  {
    if |m| > 16 {
      PieceIs(m[16..], if n > 0 then n - 1 else 0);
      if 0 < n < NumBlocks(|m|) { BlockFurther(m, n); }
    } else if m != [] && n == 0 {
      assert m[0..] == m && Zeros(0) == [] && (|m| == 16 ==> m[0..16] == m == m + []);
    }
  }

  lemma BlockFurther(m: Bytes, n: nat)
    requires |m| > 16 && n > 0
    ensures BlockAt(m, n) == BlockAt(m[16..], n - 1)
  {
    var from := 16 * n;
    if from <= |m| { assert m[from..] == m[16..][from - 16..]; }
    if from + 16 <= |m| { assert m[from..from + 16] == m[16..][from - 16..from]; }
  }

  /** Absorbing blocks of the message extends the list. */
  lemma {:induction false} MacBlocksIsCbcMac(aes: Cipher, blocks: seq<Block>, m: Bytes, ps: seq<Block>, n: nat)
    requires n <= |ps| && forall i :: 0 <= i < n ==> ps[i] == BlockAt(m, i)
    ensures MacBlocks(aes, CbcMac(aes, blocks), m, n) == CbcMac(aes, blocks + ps[..n])
    decreases n
  {
    if n == 0 {
      assert blocks + ps[..0] == blocks;
    } else {
      MacBlocksIsCbcMac(aes, blocks, m, ps, n - 1);
      CbcMacNext(aes, blocks + ps[..n - 1], ps[n - 1]);
      Longer(blocks, ps, n);
    }
  }

  lemma Longer(blocks: seq<Block>, ps: seq<Block>, n: nat)
    requires 0 < n <= |ps|
    ensures blocks + ps[..n] == blocks + ps[..n - 1] + [ps[n - 1]]
  {
  }

  lemma TagIsCbcMac(aes: Cipher, nonce: Bytes, aad: Bytes, m: Bytes, start: seq<Block>)
    requires |nonce| == 13 && |aad| == 32 && start == [FirstBlock(nonce, |m|)] + [aad[..16]] + [aad[16..]]
    ensures Tag(aes, nonce, aad, m) == CbcMac(aes, start + Pieces(m))[..8]
  {
    var ps := Pieces(m);
    MacStartIsCbcMac(aes, nonce, |m|, aad);
    PieceIs(m, 0);
    forall i | 0 <= i < |ps| ensures ps[i] == BlockAt(m, i) { PieceIs(m, i); }
    MacBlocksIsCbcMac(aes, start, m, ps, |ps|);
    assert ps[..|ps|] == ps;
  }

  lemma Listed(first: seq<Block>, x: seq<Block>, y: seq<Block>, ps: seq<Block>)
    ensures first + (x + y) + ps == first + x + y + ps
  {
  }

  lemma BlocksAre(nonce: Bytes, a: Bytes, m: Bytes, x: Block, y: Block)
    requires |nonce| == 13 && 14 < |a| <= 30 && x == EncodeData(a)[..16] && y == EncodeData(a)[16..]
    ensures Blocks(nonce, a, m) == [FirstBlock(nonce, |m|)] + [x] + [y] + Pieces(m)
  {
    BlocksAreStandard(nonce, |m|);
    EncodedPieces(a);
    Listed([B0(nonce, |m|)], [x], [y], Pieces(m));
  }

  /** The tag is the first M octets of the CBC-MAC of the standard. */
  lemma TagIsStandard(aes: Cipher, nonce: Bytes, a: Bytes, m: Bytes)
    requires |nonce| == 13 && 14 < |a| <= 30
    ensures Tag(aes, nonce, EncodeData(a), m) == StandardTag(aes, nonce, a, m)
  {
    var aad := EncodeData(a);
    BlocksAre(nonce, a, m, aad[..16], aad[16..]);
    TagIsCbcMac(aes, nonce, aad, m, [FirstBlock(nonce, |m|)] + [aad[..16]] + [aad[16..]]);
  }

  // ---------------------------------------------------------------- the key stream

  /** S_1, S_2, ..., S_n one after the other; S_i is A_i enciphered. */
  function KeyStream(aes: Cipher, nonce: Bytes, n: nat): (r: Bytes)
    requires |nonce| == 13
    ensures |r| == 16 * n
  {
    if n == 0 then [] else KeyStream(aes, nonce, n - 1) + aes(A(nonce, n))
  }

  /** Sections 2.3 and 2.4: the message under the key stream, and the tag under the first octets of S_0. */
  function StandardSeal(aes: Cipher, nonce: Bytes, a: Bytes, m: Bytes): Bytes
    requires |nonce| == 13
  {
    NumBlocksIs(|m|);
    Xor(KeyStream(aes, nonce, NumBlocks(|m|))[..|m|], m)
      + Xor(aes(A(nonce, 0))[..M], StandardTag(aes, nonce, a, m))
  }

  lemma {:induction false} KeyStreamAt(aes: Cipher, nonce: Bytes, n: nat, i: nat, k: nat, at: nat)
    requires |nonce| == 13 && i < n && k < 16 && at == 16 * i + k
    ensures at < 16 * n && KeyStream(aes, nonce, n)[at] == aes(A(nonce, i + 1))[k]
  {
    if i < n - 1 { KeyStreamAt(aes, nonce, n - 1, i, k, at); }
  }

  lemma KeyByteIsStandard(aes: Cipher, nonce: Bytes, n: nat, i: nat, k: nat, at: nat)
    requires |nonce| == 13 && i < n && k < 16 && at == 16 * i + k
    ensures at < 16 * n && KeyByte(aes, nonce, at) == KeyStream(aes, nonce, n)[at]
  {
    KeyByteAt(aes, nonce, i + 1, k, at);
    BlocksAreStandard(nonce, i + 1);
    KeyStreamAt(aes, nonce, n, i, k, at);
  }

  lemma RoundOf(at: nat, n: nat) returns (i: nat, k: nat)
    requires at < 16 * n
    ensures i < n && k < 16 && at == 16 * i + k
  {
    i, k := at / 16, at % 16;
  }

  lemma CtrIsStandard(aes: Cipher, nonce: Bytes, d: Bytes, n: nat)
    requires |nonce| == 13 && |d| <= 16 * n
    ensures Ctr(aes, nonce, d) == Xor(KeyStream(aes, nonce, n)[..|d|], d)
  {
    var stream := KeyStream(aes, nonce, n)[..|d|];
    forall at | 0 <= at < |d| ensures Ctr(aes, nonce, d)[at] == XorByte(stream[at], d[at]) {
      var i, k := RoundOf(at, n);
      CtrAt(aes, nonce, d, at);
      KeyByteIsStandard(aes, nonce, n, i, k, at);
    }
  }

  /** What is sealed is what RFC 3610 prescribes. */
  lemma SealIsStandard(aes: Cipher, nonce: Bytes, a: Bytes, m: Bytes)
    requires |nonce| == 13 && 14 < |a| <= 30
    ensures Seal(aes, nonce, EncodeData(a), m) == StandardSeal(aes, nonce, a, m)
  {
    NumBlocksIs(|m|);
    CtrIsStandard(aes, nonce, m, NumBlocks(|m|));
    TagIsStandard(aes, nonce, a, m);
    BlocksAreStandard(nonce, 0);
  }

  /** So exactly what the standard seals opens. */
  lemma OpensIffStandard(aes: Cipher, nonce: Bytes, a: Bytes, sealed: Bytes, m: Bytes)
    requires |nonce| == 13 && 14 < |a| <= 30 && |sealed| >= 8
    ensures Open(aes, nonce, EncodeData(a), sealed) == Some(m) <==> sealed == StandardSeal(aes, nonce, a, m)
  {
    OpensIffSealed(aes, nonce, EncodeData(a), sealed, m);
    SealIsStandard(aes, nonce, a, m);
  }
}
