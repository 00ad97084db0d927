/**
 The additional data and the nonce that IEEE 802.11-2012 prescribes for CCMP
 (sections 11.4.3.3.3 and 11.4.3.3.4), stated from the octets of a frame, and exactly
 when libtins uses the same ones.
 */
module CcmpFrame {
  import opened Ccmp
  import opened Ccm

  /** A data frame's header: frame control, addresses, sequence control and QoS control, low octets first. */
  datatype Frame = Frame(
    fc0: Byte, fc1: Byte, addr1: Bytes, addr2: Bytes, addr3: Bytes, addr4: Bytes, sc0: Byte, qc0: Byte)
  {
    predicate Valid() { |addr1| == |addr2| == |addr3| == |addr4| == 6 }

    predicate ToDs() { fc1 & 0x01 == 0x01 }

    predicate FromDs() { fc1 & 0x02 == 0x02 }

    /** The frame has a QoS control field: the high bit of its subtype is set. */
    predicate IsQos() { fc0 & 0x80 == 0x80 }

    function Tid(): Byte { qc0 & 0x0f }
  }

  // ---------------------------------------------------------------- the standard

  /** Three of the four subtype bits are masked. */
  function Masked0(f: Frame): Byte { f.fc0 & 0x8f }

  /** Retry, power management and more data are masked, protected is set, order is masked in QoS frames. */
  function Masked1(f: Frame): Byte {
    if f.IsQos() then (f.fc1 & 0x47) | 0x40 else (f.fc1 & 0xc7) | 0x40
  }

  function StandardAad(f: Frame): (r: Bytes)
    requires f.Valid()
    ensures |r| <= 30
  {
    [Masked0(f), Masked1(f)] + f.addr1 + f.addr2 + f.addr3 + [f.sc0 & 0x0f, 0] + StandardTail(f)
  }

  function StandardTail(f: Frame): Bytes {
    (if f.ToDs() && f.FromDs() then f.addr4 else []) + (if f.IsQos() then [f.Tid(), 0] else [])
  }

  /** The priority, the transmitter and the packet number, most significant octet first. */
  function StandardNonce(f: Frame, pload: Bytes): (r: Bytes)
    requires f.Valid() && |pload| >= 8
    ensures |r| == 13
  {
    [if f.IsQos() then f.Tid() else 0] + f.addr2 + [pload[7], pload[6], pload[5], pload[4], pload[1], pload[0]]
  }

  // ------------------------------------------------------------------ the library

  /** The fields as the accessors of Dot11 and Dot11Data return them. */
  function Fields(f: Frame): Header {
    Header(f.fc0 & 0x03, (f.fc0 >> 2) & 0x03, f.fc0 >> 4,
           f.fc1 & 0x01 == 0x01, f.fc1 & 0x02 == 0x02, f.fc1 & 0x04 == 0x04, f.fc1 & 0x80 == 0x80,
           f.addr1, f.addr2, f.addr3, f.addr4, f.sc0 & 0x0f)
  }

  lemma FirstOctet(f: Frame)
    ensures FrameControl0(Fields(f)) == Masked0(f)
  {
    var b := f.fc0;
    assert (b & 0x03) | (((b >> 2) & 0x03) << 2) | (((b >> 4) << 4) & 0x80) == b & 0x8f;
  }

  lemma BitIs(b: Byte)
    ensures Bit(b & 0x01 == 0x01, 1) == b & 0x01
    ensures Bit(b & 0x02 == 0x02, 2) == b & 0x02
    ensures Bit(b & 0x04 == 0x04, 4) == b & 0x04
    ensures Bit(b & 0x80 == 0x80, 0x80) == b & 0x80
  {
    assert b & 0x01 == 0 || b & 0x01 == 0x01;
    assert b & 0x02 == 0 || b & 0x02 == 0x02;
    assert b & 0x04 == 0 || b & 0x04 == 0x04;
    assert b & 0x80 == 0 || b & 0x80 == 0x80;
  }

  lemma FiveBits(b: Byte)
    ensures 0x40 | (b & 0x01) | (b & 0x02) | (b & 0x04) | (b & 0x80) == (b & 0xc7) | 0x40
  {
  }

  lemma OrderBit(b: Byte)
    ensures (b & 0xc7) | 0x40 == (b & 0x47) | 0x40 <==> b & 0x80 == 0
  {
  }

  /** The second octets agree unless a QoS frame has its order bit set. */
  lemma SecondOctet(f: Frame)
    ensures FrameControl1(Fields(f)) == Masked1(f) <==> !f.IsQos() || f.fc1 & 0x80 == 0
  {
    BitIs(f.fc1);
    FiveBits(f.fc1);
    OrderBit(f.fc1);
  }

  lemma SubtypeIs(b: Byte)
    ensures b >> 4 == 8 <==> b & 0xf0 == 0x80
    ensures b & 0xf0 == 0x80 ==> b & 0x80 == 0x80
  {
  }

  /** The optional parts agree for frames without QoS, and for plain QoS data with traffic identifier 0. */
  lemma TailsAgreeIff(f: Frame)
    requires f.Valid()
    ensures OptionalPart(Fields(f)) == StandardTail(f) <==> !f.IsQos() || (f.fc0 & 0xf0 == 0x80 && f.Tid() == 0)
  {
    SubtypeIs(f.fc0);
    var mine, theirs := OptionalPart(Fields(f)), StandardTail(f);
    if f.IsQos() && f.fc0 & 0xf0 == 0x80 {
      assert mine[|mine| - 2] == 0 && theirs[|theirs| - 2] == f.Tid();
    } else if f.IsQos() {
      assert |theirs| == |mine| + 2;
    }
  }

  lemma Parts(a0: Byte, a1: Byte, b0: Byte, b1: Byte, middle: Bytes, s: Bytes, t: Bytes)
    ensures [a0, a1] + middle + s == [b0, b1] + middle + t <==> a0 == b0 && a1 == b1 && s == t
  {
    var x, y := [a0, a1] + middle + s, [b0, b1] + middle + t;
    if x == y {
      assert x[0] == a0 && x[1] == a1 && y[0] == b0 && y[1] == b1;
      assert x[2 + |middle|..] == s && y[2 + |middle|..] == t;
    }
  }

  /** What a sender may do so that the two agree: no QoS, or plain QoS data of identifier 0 without the order bit. */
  predicate Agreed(f: Frame) {
    !f.IsQos() || (f.fc0 & 0xf0 == 0x80 && f.Tid() == 0 && f.fc1 & 0x80 == 0)
  }

  function Middle(f: Frame): Bytes { f.addr1 + f.addr2 + f.addr3 + [f.sc0 & 0x0f, 0] }

  lemma AadParts(f: Frame)
    requires f.Valid()
    ensures Aad(Fields(f)) == [FrameControl0(Fields(f)), FrameControl1(Fields(f))] + Middle(f) + OptionalPart(Fields(f))
    ensures StandardAad(f) == [Masked0(f), Masked1(f)] + Middle(f) + StandardTail(f)
  {
  }

  /** The additional data is that of the standard exactly for agreed frames. */
  lemma AadIsStandardIff(f: Frame)
    requires f.Valid()
    ensures Aad(Fields(f)) == StandardAad(f) <==> Agreed(f)
  {
    FirstOctet(f);
    SecondOctet(f);
    TailsAgreeIff(f);
    AadParts(f);
    Parts(FrameControl0(Fields(f)), FrameControl1(Fields(f)), Masked0(f), Masked1(f),
          Middle(f), OptionalPart(Fields(f)), StandardTail(f));
  }

  lemma LengthOctet(n: nat)
    requires n <= 30
    ensures (n as bv8) as nat == n
  {
  }

  /** Encoding with the length in front loses nothing. */
  lemma EncodingIsInjective(a: Bytes, b: Bytes)
    requires |a| <= 30 && |b| <= 30
    ensures EncodeData(a) == EncodeData(b) <==> a == b
  {
    LengthOctet(|a|);
    LengthOctet(|b|);
    var x, y := EncodeData(a), EncodeData(b);
    if x == y {
      assert x[1] == |a| as bv8 && y[1] == |b| as bv8;
      assert x[2..2 + |a|] == a && y[2..2 + |b|] == b;
    }
  }

  /** What the library authenticates is what the standard prescribes exactly for agreed frames. */
  lemma EncodedAadIsStandardIff(f: Frame)
    requires f.Valid()
    ensures EncodedAad(Fields(f)) == EncodeData(StandardAad(f)) <==> Agreed(f)
  {
    AadIsStandardIff(f);
    AadLengthOk(Fields(f));
    EncodingIsInjective(Aad(Fields(f)), StandardAad(f));
  }

  /** The nonce is that of the standard exactly if the frame has no QoS field or its traffic identifier is 0. */
  lemma NonceIsStandardIff(f: Frame, pload: Bytes)
    requires f.Valid() && |pload| >= 8
    ensures Nonce(Fields(f), pload) == StandardNonce(f, pload) <==> !f.IsQos() || f.Tid() == 0
  {
    assert Nonce(Fields(f), pload)[0] == 0;
    assert StandardNonce(f, pload)[0] == if f.IsQos() then f.Tid() else 0;
  }

  /** An agreed frame sealed as the standard says is opened as the message it seals. */
  lemma AgreedFramesOpen(aes: Cipher, f: Frame, pload: Bytes, m: Bytes)
    requires f.Valid() && Agreed(f) && |pload| >= 8
    requires pload[8..] == Seal(aes, StandardNonce(f, pload), EncodeData(StandardAad(f)), m)
    ensures Open(aes, Nonce(Fields(f), pload), EncodedAad(Fields(f)), pload[8..]) == Some(m)
  {
    EncodedAadIsStandardIff(f);
    NonceIsStandardIff(f, pload);
    OpensIffSealed(aes, StandardNonce(f, pload), EncodeData(StandardAad(f)), pload[8..], m);
  }

  /** An agreed frame opens as a message exactly if it is what RFC 3610 seals for the standard's data and nonce. */
  lemma AgreedFramesOpenIff(aes: Cipher, f: Frame, pload: Bytes, m: Bytes)
    requires f.Valid() && Agreed(f) && |pload| >= 16
    ensures Open(aes, Nonce(Fields(f), pload), EncodedAad(Fields(f)), pload[8..]) == Some(m)
       <==> pload[8..] == StandardSeal(aes, StandardNonce(f, pload), StandardAad(f), m)
  {
    EncodedAadIsStandardIff(f);
    NonceIsStandardIff(f, pload);
    OpensIffStandard(aes, StandardNonce(f, pload), StandardAad(f), pload[8..], m);
  }
}
