/**
 CRC-32 with a table of sixteen entries, one step per nibble, in which the
 initial and the final complement are folded into the table.

 The reference is the bit-by-bit algorithm of section 8 of RFC 1952: a register
 preset to ones, the reflected polynomial 0xEDB88320, and a final complement.
 */
module Crc32 {

  const POLYNOMIAL: bv32 := 0xEDB88320
  const ONES: bv32 := 0xFFFFFFFF

  // The operations on registers, named so that proofs can treat them as symbols.

  function Xor(a: bv32, b: bv32): bv32 { a ^ b }

  function High(x: bv32): bv32 { x >> 4 }

  function Low(x: bv32): bv32 { x & 0x0F }

  function Widen(b: bv8): bv32 { b as bv32 }

  // ----------------------------------------------------------------- the reference

  /** Shift one bit out of the register. */
  function BitStep(c: bv32): bv32 {
    AddIf(Odd(c), POLYNOMIAL, Half(c))
  }

  function AddIf(bit: bool, p: bv32, x: bv32): bv32 { if bit then Xor(p, x) else x }

  function Half(c: bv32): bv32 { c >> 1 }

  predicate Odd(c: bv32) { c & 1 == 1 }

  function FourBits(c: bv32): bv32 { BitStep(BitStep(BitStep(BitStep(c)))) }

  /** Add a byte to the register and shift out its eight bits. */
  function ByteStep(c: bv32, w: bv32): bv32 { FourBits(FourBits(Xor(c, w))) }

  function Register(data: seq<bv8>): bv32 {
    if data == [] then ONES else ByteStep(Register(data[..|data| - 1]), Widen(data[|data| - 1]))
  }

  function Reference(data: seq<bv8>): bv32 { Xor(Register(data), ONES) }

  // ------------------------------------------------------------- the implementation

  /** crc_table; indices are masked to four bits. */
  function CrcTable(i: bv32): bv32 {
    if i == 0 then 0x4DBDF21C
    else if i == 1 then 0x500AE278
    else if i == 2 then 0x76D3D2D4
    else if i == 3 then 0x6B64C2B0
    else if i == 4 then 0x3B61B38C
    else if i == 5 then 0x26D6A3E8
    else if i == 6 then 0x000F9344
    else if i == 7 then 0x1DB88320
    else if i == 8 then 0xA005713C
    else if i == 9 then 0xBDB26158
    else if i == 10 then 0x9B6B51F4
    else if i == 11 then 0x86DC4190
    else if i == 12 then 0xD6D930AC
    else if i == 13 then 0xCB6E20C8
    else if i == 14 then 0xEDB71064
    else 0xF0000000
  }

  /** One line of the loop body. */
  function NibbleStep(crc: bv32, n: bv32): bv32 { Xor(High(crc), CrcTable(Low(Xor(crc, n)))) }

  method Crc(data: seq<bv8>) returns (crc: bv32)
    ensures crc == Reference(data)
  {
    crc := 0;
    assert Xor(ONES, ONES) == 0;
    for i := 0 to |data|
      invariant crc == Xor(Register(data[..i]), ONES)
    {
      assert data[..i + 1][..i] == data[..i];
      ByteOfTable(Register(data[..i]), data[i]);
      crc := NibbleStep(crc, Widen(data[i]));
      crc := NibbleStep(crc, High(Widen(data[i])));
    }
    assert data[..|data|] == data;
  }

  // -------------------------------------------------------------------- the proofs

  lemma HalfXor(a: bv32, b: bv32)
    ensures Half(Xor(a, b)) == Xor(Half(a), Half(b))
  {
  }

  lemma OddXor(a: bv32, b: bv32)
    ensures Odd(Xor(a, b)) <==> Odd(a) != Odd(b)
  {
    assert a & 1 == 0 || a & 1 == 1;
    assert b & 1 == 0 || b & 1 == 1;
    assert (a ^ b) & 1 == (a & 1) ^ (b & 1);
  }

  lemma XorTwice(p: bv32, x: bv32)
    ensures Xor(p, Xor(p, x)) == x
  {
  }

  lemma XorLeft(p: bv32, x: bv32, y: bv32)
    ensures Xor(Xor(p, x), y) == Xor(p, Xor(x, y))
  {
  }

  lemma XorRight(p: bv32, x: bv32, y: bv32)
    ensures Xor(x, Xor(p, y)) == Xor(p, Xor(x, y))
  {
  }

  lemma AddIfLinear(p: bv32, x: bv32, y: bv32, a: bool, b: bool)
    ensures AddIf(a != b, p, Xor(x, y)) == Xor(AddIf(a, p, x), AddIf(b, p, y))
  {
    if a && b {
      XorLeft(p, x, Xor(p, y));
      XorRight(p, x, y);
      XorTwice(p, Xor(x, y));
    } else if a {
      XorLeft(p, x, y);
    } else if b {
      XorRight(p, x, y);
    }
  }

  /** Shifting a bit out is linear. */
  lemma BitStepLinear(a: bv32, b: bv32)
    ensures BitStep(Xor(a, b)) == Xor(BitStep(a), BitStep(b))
  {
    HalfXor(a, b);
    OddXor(a, b);
    AddIfLinear(POLYNOMIAL, Half(a), Half(b), Odd(a), Odd(b));
  }

  /** The register without its low nibble. */
  function Aligned(x: bv32): bv32 { x & 0xFFFFFFF0 }

  lemma AlignedBits(x: bv32)
    ensures var a := Aligned(x);
      && !Odd(a) && !Odd(Half(a)) && !Odd(Half(Half(a))) && !Odd(Half(Half(Half(a))))
      && Half(Half(Half(Half(a)))) == High(x)
  {
  }

  /** Without its low nibble a register is only shifted. */
  lemma AlignedSteps(x: bv32)
    ensures FourBits(Aligned(x)) == High(x)
  {
    AlignedBits(x);
  }

  lemma Halves(x: bv32)
    ensures Xor(Aligned(x), Low(x)) == x
  {
  }

  /** Four bit steps are linear: shift out the low nibble and add what it turns into. */
  lemma FourBitsLinear(x: bv32)
    ensures FourBits(x) == Xor(High(x), FourBits(Low(x)))
  {
    var a, b := Aligned(x), Low(x);
    Halves(x);
    BitStepLinear(a, b);
    BitStepLinear(BitStep(a), BitStep(b));
    BitStepLinear(BitStep(BitStep(a)), BitStep(BitStep(b)));
    BitStepLinear(BitStep(BitStep(BitStep(a))), BitStep(BitStep(BitStep(b))));
    AlignedSteps(x);
  }

  /** Each entry is four bit steps of the complemented index, with the complements folded in. */
  lemma TableEntry(i: bv32)
    requires i < 16
    ensures CrcTable(i) == Xor(FourBits(i ^ 15), 0xF0000000)
  {
  }

  lemma ComplementIndex(c: bv32, n: bv32)
    ensures Low(Xor(Xor(c, ONES), n)) < 16
    ensures Low(Xor(Xor(c, ONES), n)) ^ 15 == Low(Xor(c, n))
  {
  }

  lemma ComplementShift(c: bv32, f: bv32)
    ensures Xor(High(Xor(c, ONES)), Xor(f, 0xF0000000)) == Xor(Xor(High(c), f), ONES)
  {
  }

  /** On a complemented register the table's step is the reference's. */
  lemma TableStep(c: bv32, n: bv32)
    ensures NibbleStep(Xor(c, ONES), n) == Xor(Xor(High(c), FourBits(Low(Xor(c, n)))), ONES)
  {
    ComplementIndex(c, n);
    TableEntry(Low(Xor(Xor(c, ONES), n)));
    ComplementShift(c, FourBits(Low(Xor(c, n))));
  }

  lemma HighXor(a: bv32, b: bv32)
    ensures High(Xor(a, b)) == Xor(High(a), High(b))
  {
  }

  lemma XorCommutes(a: bv32, b: bv32)
    ensures Xor(a, b) == Xor(b, a)
  {
  }

  lemma HighOfXor(c: bv32, b: bv8, f: bv32)
    ensures Xor(High(Xor(c, Widen(b))), f) == Xor(Xor(High(c), f), High(Widen(b)))
  {
    HighXor(c, Widen(b));
    XorLeft(High(c), High(Widen(b)), f);
    XorLeft(High(c), f, High(Widen(b)));
    XorCommutes(High(Widen(b)), f);
  }

  lemma HighNibbleGone(low: bv32, b: bv8)
    ensures High(Xor(low, High(Widen(b)))) == High(low)
  {
  }

  /** Adding the byte nibble by nibble is adding it at once. */
  lemma ByteIsTwoNibbles(c: bv32, b: bv8)
    ensures var low := Xor(High(c), FourBits(Low(Xor(c, Widen(b)))));
            ByteStep(c, Widen(b)) == Xor(High(low), FourBits(Low(Xor(low, High(Widen(b))))))
  {
    var w := Widen(b);
    var f := FourBits(Low(Xor(c, w)));
    FourBitsLinear(Xor(c, w));
    HighOfXor(c, b, f);
    FourBitsLinear(FourBits(Xor(c, w)));
    HighNibbleGone(Xor(High(c), f), b);
  }

  /** Two table steps are a byte of the reference, on complemented registers. */
  lemma ByteOfTable(c: bv32, b: bv8)
    ensures NibbleStep(NibbleStep(Xor(c, ONES), Widen(b)), High(Widen(b))) == Xor(ByteStep(c, Widen(b)), ONES)
  {
    TableStep(c, Widen(b));
    TableStep(Xor(High(c), FourBits(Low(Xor(c, Widen(b))))), High(Widen(b)));
    ByteIsTwoNibbles(c, b);
  }

  lemma RegisterNext(data: seq<bv8>, b: bv8)
    ensures Register(data + [b]) == ByteStep(Register(data), Widen(b))
  {
    assert (data + [b])[..|data|] == data;
  }

  /** The check value that identifies this CRC: that of the nine digits from "1" to "9". */
  lemma CheckValue()
    ensures Reference([] + [0x31] + [0x32] + [0x33] + [0x34] + [0x35] + [0x36] + [0x37] + [0x38] + [0x39]) == 0xCBF43926
  {
    DigitSteps();
    var data: seq<bv8> := [];
    RegisterNext(data, 0x31);
    RegisterNext(data + [0x31], 0x32);
    RegisterNext(data + [0x31] + [0x32], 0x33);
    RegisterNext(data + [0x31] + [0x32] + [0x33], 0x34);
    RegisterNext(data + [0x31] + [0x32] + [0x33] + [0x34], 0x35);
    RegisterNext(data + [0x31] + [0x32] + [0x33] + [0x34] + [0x35], 0x36);
    RegisterNext(data + [0x31] + [0x32] + [0x33] + [0x34] + [0x35] + [0x36], 0x37);
    RegisterNext(data + [0x31] + [0x32] + [0x33] + [0x34] + [0x35] + [0x36] + [0x37], 0x38);
    RegisterNext(data + [0x31] + [0x32] + [0x33] + [0x34] + [0x35] + [0x36] + [0x37] + [0x38], 0x39);
  }

  lemma DigitSteps()
    ensures ByteStep(0xFFFFFFFF, 0x31) == 0x7C231048
    ensures ByteStep(0x7C231048, 0x32) == 0xB0ACBB32
    ensures ByteStep(0xB0ACBB32, 0x33) == 0x77B79C2D
    ensures ByteStep(0x77B79C2D, 0x34) == 0x641C1F5C
    ensures ByteStep(0x641C1F5C, 0x35) == 0x340AC5E3
    ensures ByteStep(0x340AC5E3, 0x36) == 0xF68D2C9E
    ensures ByteStep(0xF68D2C9E, 0x37) == 0xAFFC9660
    ensures ByteStep(0xAFFC9660, 0x38) == 0x651F2550
    ensures ByteStep(0x651F2550, 0x39) == 0x340BC6D9
  {
  }
}
