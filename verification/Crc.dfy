/**
  The CRC shared by the bootloader (`crc_update`), the application core (`crc32`)
  and the image tool (`crc8266`): generator 0x04c11db7, most significant bit first,
  no final inversion.

  The reference definition works on bit strings.  The byte loops are proved to compute
  it, and the properties the rest of the system relies on -- chaining, and detection of
  every burst of at most 32 bits -- are proved about it.
*/
module Crc {
  import opened Words

  const POLY: u32 := 0x04c1_1db7
  const SEED: u32 := 0xffff_ffff

  /** One step of the shift register, fed with one message bit. */
  function Shift(crc: u32, b: bool): u32 {
    if (crc >= TWO31) != b then XorWords(2 * Rest(crc), POLY) else 2 * Rest(crc)
  }

  /** A register without its top bit. */
  function Rest(crc: u32): (r: nat)
    ensures r < TWO31
  {
    if crc >= TWO31 then crc - TWO31 else crc
  }

  /** The shift of a 32-bit register, as the sources write it. */
  lemma ShiftedOut(crc: u32)
    ensures crc * 2 % TWO32 == 2 * Rest(crc)
  {
  }

  function XorWords(a: u32, b: u32): u32 {
    Powers();
    XorFits(a, b, 32);
    Xor(a, b)
  }

  /** The register after a whole bit string. */
  function CrcBits(crc: u32, bits: seq<bool>): u32
    decreases |bits|
  {
    if bits == [] then crc else CrcBits(Shift(crc, bits[0]), bits[1..])
  }

  /** Bit k of a byte, counted from the most significant one. */
  predicate BitAt(c: byte, k: nat)
    requires k < 8
  {
    Half(c, 7 - k) % 2 == 1
  }

  /** The bits of a byte, most significant first. */
  function ByteBits(c: byte): (bits: seq<bool>)
    ensures |bits| == 8
  {
    seq(8, k requires 0 <= k < 8 => BitAt(c, k))
  }

  function Bits(data: seq<byte>): (bits: seq<bool>)
    ensures |bits| == 8 * |data|
  {
    if data == [] then [] else ByteBits(data[0]) + Bits(data[1..])
  }

  /** The bits of a message come byte by byte, and in each byte from the highest to the lowest. */
  lemma {:induction false} BitsInOrder(data: seq<byte>, i: nat, k: nat)
    requires i < |data| && k < 8
    ensures Bits(data)[8 * i + k] <==> data[i] / Pow2(7 - k) % 2 == 1
    decreases i
  {
    if i == 0 {
      HalfIsQuotient(data[0], 7 - k);
    } else {
      BitsInOrder(data[1..], i - 1, k);
      assert Bits(data)[8..] == Bits(data[1..]);
      assert Bits(data)[8 * i + k] == Bits(data)[8..][8 * (i - 1) + k];
    }
  }

  function Crc32(seed: u32, data: seq<byte>): u32 {
    CrcBits(seed, Bits(data))
  }

  // ---------------------------------------------------------------- chaining

  lemma {:induction false} CrcBitsAppend(crc: u32, a: seq<bool>, b: seq<bool>)
    ensures CrcBits(crc, a + b) == CrcBits(CrcBits(crc, a), b)
    decreases |a|
  {
    if a == [] {
      assert a + b == b;
    } else {
      assert (a + b)[1..] == a[1..] + b;
      CrcBitsAppend(Shift(crc, a[0]), a[1..], b);
    }
  }

  lemma {:induction false} BitsAppend(a: seq<byte>, b: seq<byte>)
    ensures Bits(a + b) == Bits(a) + Bits(b)
    decreases |a|
  {
    if a == [] {
      assert a + b == b;
    } else {
      assert (a + b)[1..] == a[1..] + b;
      BitsAppend(a[1..], b);
    }
  }

  /** A CRC may be computed piecewise, each piece seeded with the previous result. */
  lemma Chaining(seed: u32, a: seq<byte>, b: seq<byte>)
    ensures Crc32(seed, a + b) == Crc32(Crc32(seed, a), b)
  {
    BitsAppend(a, b);
    CrcBitsAppend(seed, Bits(a), Bits(b));
  }

  lemma CrcLastByte(seed: u32, data: seq<byte>, n: nat)
    requires n < |data|
    ensures Crc32(seed, data[..n + 1]) == CrcBits(Crc32(seed, data[..n]), ByteBits(data[n]))
  {
    assert data[..n + 1] == data[..n] + [data[n]];
    Chaining(seed, data[..n], [data[n]]);
    assert Bits([data[n]]) == ByteBits(data[n]) + Bits([]) == ByteBits(data[n]);
  }

  lemma CrcLastBit(crc: u32, bits: seq<bool>, k: nat)
    requires k < |bits|
    ensures CrcBits(crc, bits[..k + 1]) == Shift(CrcBits(crc, bits[..k]), bits[k])
  {
    var before := CrcBits(crc, bits[..k]);
    assert bits[..k + 1] == bits[..k] + [bits[k]];
    CrcBitsAppend(crc, bits[..k], [bits[k]]);
    assert CrcBits(before, [bits[k]]) == CrcBits(Shift(before, bits[k]), []);
  }

  // ---------------------------------------------------------------- the loops

  /** 0x80 after k halvings. */
  ghost function Mask(k: nat): nat
    requires k <= 8
  {
    if k == 8 then 0 else Pow2(7 - k)
  }

  lemma MaskBit(c: byte, k: nat)
    requires k < 8
    ensures And(c, Mask(k)) != 0 <==> BitAt(c, k)
    ensures Mask(k) > 0 && Mask(k) / 2 == Mask(k + 1)
  {
    AndMask(c, 7 - k);
  }

  lemma MaskStart()
    ensures Mask(0) == 0x80
  {
    assert Pow2(7) == 0x80;
  }

  /** `crc_update` of the bootloader; `crc32` of the core has the same two loops. */
  method CrcUpdate(seed: u32, data: seq<byte>) returns (crc: u32)
    ensures crc == Crc32(seed, data)
  {
    crc := seed;
    var n := 0;
    assert data[..0] == [];
    while n < |data|
      invariant n <= |data|
      invariant crc == Crc32(seed, data[..n])
    {
      crc := CrcUpdateByte(crc, data[n]);
      CrcLastByte(seed, data, n);
      n := n + 1;
    }
    assert data[..|data|] == data;
  }

  /** The inner loop of `crc_update`: eight steps under a mask that moves right. */
  method CrcUpdateByte(start: u32, c: byte) returns (crc: u32)
    ensures crc == CrcBits(start, ByteBits(c))
  {
    crc := start;
    ghost var bits, k := ByteBits(c), 0;
    var i: byte := 0x80;
    MaskStart();
    while i > 0
      invariant k <= 8 && i == Mask(k)
      invariant crc == CrcBits(start, bits[..k])
      decreases 8 - k
    {
      CrcLastBit(start, bits, k);
      MaskBit(c, k);
      ShiftedOut(crc);
      var bit := crc >= TWO31;
      if And(c, i) != 0 {
        bit := !bit;
      }
      crc := crc * 2 % TWO32;
      if bit {
        crc := XorWords(crc, 0x04c1_1db7);
      }
      i := i / 2;
      k := k + 1;
    }
    assert bits[..8] == bits;
  }

  lemma MaskTable(masks: seq<byte>)
    requires masks == [0x80, 0x40, 0x20, 0x10, 0x08, 0x04, 0x02, 0x01]
    ensures forall k :: 0 <= k < 8 ==> masks[k] == Mask(k)
  {
    assert Mask(7) == 1 && Mask(6) == 2 && Mask(5) == 4 && Mask(4) == 8;
    assert Mask(3) == 0x10 && Mask(2) == 0x20 && Mask(1) == 0x40 && Mask(0) == 0x80;
  }

  /** The body of the inner loop of `crc8266`, which keeps `bit` as a number. */
  method Crc8266Step(crc: u32, masked: nat) returns (next: u32)
    ensures next == Shift(crc, masked != 0)
  {
    ShiftedOut(crc);
    var bit := if crc >= TWO31 then TWO31 else 0;
    if masked != 0 {
      bit := if bit == 0 then 1 else 0;
    }
    next := crc * 2 % TWO32;
    if bit != 0 {
      next := XorWords(next, 0x04c1_1db7);
    }
  }

  /** `crc8266` of the image tool: the same CRC from a third body, seeded with all ones. */
  method Crc8266(ldata: seq<byte>) returns (crc: u32)
    ensures crc == Crc32(SEED, ldata)
  {
    crc := 0xffff_ffff;
    var idx := 0;
    var masks: seq<byte> := [0x80, 0x40, 0x20, 0x10, 0x08, 0x04, 0x02, 0x01];
    MaskTable(masks);
    assert ldata[..0] == [];
    while idx < |ldata|
      invariant idx <= |ldata|
      invariant crc == Crc32(SEED, ldata[..idx])
    {
      var byte := ldata[idx];
      ghost var start: u32, bits := crc, ByteBits(byte);
      for k := 0 to 8
        invariant crc == CrcBits(start, bits[..k])
      {
        CrcLastBit(start, bits, k);
        MaskBit(byte, k);
        crc := Crc8266Step(crc, And(byte, masks[k]));
      }
      assert bits[..8] == bits;
      CrcLastByte(SEED, ldata, idx);
      idx := idx + 1;
    }
    assert ldata[..|ldata|] == ldata;
  }

  // ---------------------------------------------------------------- burst detection

  /** Two registers that differ somewhere in their t lowest bits. */
  ghost predicate DifferLow(c: u32, d: u32, t: nat) {
    !Agree(c, d, t)
  }

  /** Bits below the top one survive the loss of the top bit. */
  lemma DropTop(c: u32, d: u32, t: nat)
    requires t <= 31
    ensures Agree(Rest(c), Rest(d), t) <==> Agree(c, d, t)
  {
    Powers();
    AgreeBelow(Rest(c), Rest(d), 31, t);
    AgreeBelow(Rest(d), Rest(c), 31, t);
    AgreeBelow(Rest(d), c, 31, t);
  }

  /** Whether a step fed with b adds the generator. */
  ghost predicate FeedsBack(c: u32, b: bool) {
    (c >= TWO31) != b
  }

  lemma ShiftParity(c: u32, b: bool)
    ensures Shift(c, b) % 2 == if FeedsBack(c, b) then 1 else 0
  {
    XorStep(2 * Rest(c), POLY);
  }

  /** The generator is odd, so a register that fed back differs in bit 0 from one that did not. */
  lemma MixedFeedbackDiffers(c: u32, d: u32, b: bool, e: bool, t: nat)
    requires FeedsBack(c, b) != FeedsBack(d, e) && t > 0
    ensures DifferLow(Shift(c, b), Shift(d, e), t)
  {
    ShiftParity(c, b);
    ShiftParity(d, e);
    ParityDiffers(Shift(c, b), Shift(d, e), t);
  }

  lemma ParityDiffers(x: u32, y: u32, t: nat)
    requires x % 2 != y % 2 && t > 0
    ensures DifferLow(x, y, t)
  {
  }

  lemma DoubledDiffer(x: nat, y: nat, t: nat)
    requires !Agree(x, y, t)
    ensures !Agree(2 * x, 2 * y, t + 1)
    ensures !Agree(Xor(2 * x, POLY), Xor(2 * y, POLY), t + 1)
  {
    assert 2 * x / 2 == x && 2 * y / 2 == y;
    XorAgree(2 * x, 2 * y, POLY, t + 1);
  }

  lemma SameFeedbackDiffers(c: u32, d: u32, b: bool, e: bool, t: nat)
    requires DifferLow(c, d, t) && t <= 31
    requires FeedsBack(c, b) == FeedsBack(d, e)
    ensures DifferLow(Shift(c, b), Shift(d, e), t + 1)
  {
    DropTop(c, d, t);
    DoubledDiffer(Rest(c), Rest(d), t);
  }

  /** One step moves the lowest difference of two registers up by at most one place. */
  lemma ShiftsDiffer(c: u32, d: u32, b: bool, e: bool, t: nat)
    requires DifferLow(c, d, t) && t <= 31
    ensures DifferLow(Shift(c, b), Shift(d, e), t + 1)
  {
    if FeedsBack(c, b) == FeedsBack(d, e) {
      SameFeedbackDiffers(c, d, b, e, t);
    } else {
      MixedFeedbackDiffers(c, d, b, e, t + 1);
    }
  }

  /** A step fed with the same bit never merges two registers. */
  lemma ShiftInjective(c: u32, d: u32, b: bool)
    requires c != d
    ensures Shift(c, b) != Shift(d, b)
  {
    if FeedsBack(c, b) == FeedsBack(d, b) {
      LowDifference(c, d, 31);
      SameFeedbackDiffers(c, d, b, b, 31);
      AgreeSelf(Shift(c, b), 32);
    } else {
      MixedFeedbackDiffers(c, d, b, b, 32);
      AgreeSelf(Shift(c, b), 32);
    }
  }

  lemma LowDifference(c: u32, d: u32, t: nat)
    requires c != d && (c >= TWO31) == (d >= TWO31) && t == 31
    ensures DifferLow(c, d, t)
  {
    if Agree(c, d, t) {
      DropTop(c, d, t);
      Powers();
      AgreeAll(Rest(c), Rest(d), t);
    }
  }

  lemma {:induction false} CrcBitsInjective(c: u32, d: u32, bits: seq<bool>)
    requires c != d
    ensures CrcBits(c, bits) != CrcBits(d, bits)
    decreases |bits|
  {
    if bits != [] {
      ShiftInjective(c, d, bits[0]);
      CrcBitsInjective(Shift(c, bits[0]), Shift(d, bits[0]), bits[1..]);
    }
  }

  /**
    Once two registers differ in their t lowest bits, they stay different while arbitrary
    bit pairs are fed for at most 32 - t steps and equal bits afterwards.
  */
  lemma {:induction false} StayApart(c: u32, d: u32, a: seq<bool>, b: seq<bool>, t: nat)
    requires |a| == |b| && t <= 32
    requires forall j :: 32 - t <= j < |a| ==> a[j] == b[j]
    requires DifferLow(c, d, t)
    ensures CrcBits(c, a) != CrcBits(d, b)
    decreases |a|
  {
    AgreeSelf(c, t);
    if t == 32 {
      assert a == b;
      CrcBitsInjective(c, d, a);
    } else if a != [] {
      ShiftsDiffer(c, d, a[0], b[0], t);
      StayApart(Shift(c, a[0]), Shift(d, b[0]), a[1..], b[1..], t + 1);
    }
  }

  /**
    Two different bit strings of equal length that agree outside 32 consecutive positions
    have different CRCs, whatever the seed.
  */
  lemma {:induction false} BurstBits(crc: u32, a: seq<bool>, b: seq<bool>, i: nat)
    requires |a| == |b| && a != b
    requires forall j :: 0 <= j < |a| && !(i <= j < i + 32) ==> a[j] == b[j]
    ensures CrcBits(crc, a) != CrcBits(crc, b)
    decreases |a|
  {
    if a[0] == b[0] {
      assert a == [a[0]] + a[1..] && b == [b[0]] + b[1..];
      BurstBits(Shift(crc, a[0]), a[1..], b[1..], if i == 0 then 0 else i - 1);
    } else {
      assert i == 0;
      MixedFeedbackDiffers(crc, crc, a[0], b[0], 1);
      StayApart(Shift(crc, a[0]), Shift(crc, b[0]), a[1..], b[1..], 1);
    }
  }

  /** Messages of equal length that differ, but only inside a window of 32 bits. */
  ghost predicate Burst(a: seq<byte>, b: seq<byte>, i: nat) {
    && |a| == |b| && a != b
    && forall j :: 0 <= j < 8 * |a| && !(i <= j < i + 32) ==> Bits(a)[j] == Bits(b)[j]
  }

  lemma ByteBitsInjective(c: byte, d: byte)
    requires forall k :: 0 <= k < 8 ==> BitAt(c, k) == BitAt(d, k)
    ensures c == d
  {
    Powers();
    forall t | 0 <= t < 8
      ensures Half(c, t) % 2 == Half(d, t) % 2
    {
      assert BitAt(c, 7 - t) == BitAt(d, 7 - t);
    }
    SameBits(c, d, 8);
    AgreeAll(c, d, 8);
  }

  lemma {:induction false} BitsInjective(a: seq<byte>, b: seq<byte>)
    requires |a| == |b| && Bits(a) == Bits(b)
    ensures a == b
    decreases |a|
  {
    if a != [] {
      var x, y := Bits(a), Bits(b);
      assert x[..8] == ByteBits(a[0]) && x[8..] == Bits(a[1..]);
      assert y[..8] == ByteBits(b[0]) && y[8..] == Bits(b[1..]);
      assert forall k :: 0 <= k < 8 ==> BitAt(a[0], k) == x[..8][k] && BitAt(b[0], k) == x[..8][k];
      ByteBitsInjective(a[0], b[0]);
      BitsInjective(a[1..], b[1..]);
    }
  }

  /** Every error burst confined to 32 consecutive bits of a message changes its CRC. */
  lemma BurstDetected(seed: u32, a: seq<byte>, b: seq<byte>, i: nat)
    requires Burst(a, b, i)
    ensures Crc32(seed, a) != Crc32(seed, b)
  {
    if Bits(a) == Bits(b) {
      BitsInjective(a, b);
      assert false;
    }
    BurstBits(seed, Bits(a), Bits(b), i);
  }

  // ---------------------------------------------------------------- polynomials

  /** The generator, by its exponents. */
  lemma Generator()
    ensures TWO32 + POLY == Pow2(32) + Pow2(26) + Pow2(23) + Pow2(22) + Pow2(16) + Pow2(12) + Pow2(11) + Pow2(10)
                            + Pow2(8) + Pow2(7) + Pow2(5) + Pow2(4) + Pow2(2) + Pow2(1) + Pow2(0)
    ensures SEED == Pow2(32) - 1
  {
    Powers();
    assert Pow2(16) == 256 * Pow2(8) && Pow2(22) == 64 * Pow2(16) && Pow2(26) == 16 * Pow2(22);
  }

  /** The seed followed by the message, times x^32, as a polynomial: bit i is the coefficient of x^i. */
  ghost function Message(seed: u32, bits: seq<bool>): nat {
    if bits == [] then seed
    else Xor(2 * Message(seed, bits[..|bits| - 1]), if bits[|bits| - 1] then TWO32 else 0)
  }

  /** The product of a polynomial, highest coefficient first, and the generator. */
  ghost function Multiple(q: seq<bool>): nat {
    if q == [] then 0
    else Xor(2 * Multiple(q[..|q| - 1]), if q[|q| - 1] then TWO32 + POLY else 0)
  }

  /** A step of the register: the next coefficient comes in, and the generator is taken off once if it fits. */
  lemma ShiftDivides(c: u32, b: bool)
    ensures Shift(c, b) == Xor(Xor(2 * c, if b then TWO32 else 0), if (c >= TWO31) != b then TWO32 + POLY else 0)
  {
    hide Xor, Pow2;
    Powers();
    var r: nat := 2 * Rest(c);
    assert 2 * c == if c >= TWO31 then TWO32 + r else r;
    TopCancels(r);
    XorTop(r, POLY, 32);
    XorNothing(r);
    XorNothing(2 * c);
    XorCommutes(r, TWO32 + POLY);
    XorCommutes(r, POLY);
    XorTop(POLY, r, 32);
  }

  lemma TopCancels(r: nat)
    requires r < TWO32
    ensures Xor(TWO32 + r, TWO32) == r && Xor(r, TWO32) == TWO32 + r && Xor(r, 0) == r
  {
    Powers();
    XorTop(r, 0, 32);
    XorTop(0, r, 32);
    XorNothing(r);
    XorCommutes(r, TWO32);
    XorCommutes(r, 0);
  }

  /** The CRC is the remainder of the message on division by the generator. */
  lemma {:induction false} Remainder(seed: u32, bits: seq<bool>) returns (q: seq<bool>)
    ensures |q| == |bits| && Xor(Message(seed, bits), Multiple(q)) == CrcBits(seed, bits)
    decreases |bits|
  {
    if bits == [] {
      XorNothing(seed);
      return [];
    }
    var front, b := bits[..|bits| - 1], bits[|bits| - 1];
    var p := Remainder(seed, front);
    var c := CrcBits(seed, front);
    q := p + [(c >= TWO31) != b];
    assert bits == front + [b] && q[..|q| - 1] == p;
    CrcBitsAppend(seed, front, [b]);
    LastBit(c, b);
    ShiftDivides(c, b);
    DivisionStep(Message(seed, front), Multiple(p), c, if b then TWO32 else 0,
                 if (c >= TWO31) != b then TWO32 + POLY else 0);
  }

  lemma LastBit(c: u32, b: bool)
    ensures CrcBits(c, [b]) == Shift(c, b)
  {
    assert [b][1..] == [];
  }

  lemma DivisionStep(m: nat, k: nat, c: nat, x: nat, y: nat)
    requires Xor(m, k) == c
    ensures Xor(Xor(2 * m, x), Xor(2 * k, y)) == Xor(Xor(2 * c, x), y)
  {
    XorDoubled(m, k);
    XorAssociates(2 * m, x, Xor(2 * k, y));
    XorAssociates(x, 2 * k, y);
    XorCommutes(x, 2 * k);
    XorAssociates(2 * k, x, y);
    XorAssociates(2 * m, 2 * k, Xor(x, y));
    XorAssociates(2 * c, x, y);
  }
}
