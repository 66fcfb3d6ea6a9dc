/**
 The 16-bit CRC of the configuration ROM, computed a nibble at a time.
 Source: IOFWUtils.cpp. The CRC is that of section 8.1.5 of ISO/IEC 13213:1994.
 */
module Crc16 {

  // ----- division by x^16 + x^12 + x^5 + 1, one bit at a time -----

  // A remainder r is the polynomial with its 16 bits as coefficients; bit is 0
  // or 1. This is (r * x + bit * x^16) modulo the generator, whose terms below
  // x^16 are 0x1021.
  function BitStep(r: bv16, bit: bv16): bv16 {
    (r << 1) ^ ((((r >> 15) ^ bit) & 1) * 0x1021)
  }

  // Addition of polynomials with coefficients modulo 2.
  function Add(a: bv16, b: bv16): bv16 {
    a ^ b
  }

  function AddWords(a: bv32, b: bv32): bv32 {
    a ^ b
  }

  // The most significant bit.
  function Top(quad: bv32): bv16 {
    (quad >> 31) as bv16
  }

  // The first n bits of quad, the most significant first, brought down.
  function Divide(r: bv16, quad: bv32, n: nat): bv16
    decreases n
  {
    if n == 0 then r else Divide(BitStep(r, Top(quad)), quad << 1, n - 1)
  }

  // The remainder of a whole message.
  function Crc(r: bv16, quads: seq<bv32>): bv16
    decreases quads
  {
    if quads == [] then r else Crc(Divide(r, quads[0], 32), quads[1..])
  }

  // ----- the nibble step -----

  function NibbleStep(crc: bv32, nibble: bv32): bv32 {
    var sum := ((crc >> 12) ^ nibble) & 0xF;
    (crc << 4) ^ (sum << 12) ^ (sum << 5) ^ sum
  }

  function Low(crc: bv32): bv16 {
    (crc & 0xFFFF) as bv16
  }

  // The same step on 16 bits, and a step by two bits.
  function ShortStep(r: bv16, nibble: bv16): bv16 {
    (r << 4) ^ ((((r >> 12) ^ nibble) & 0xF) * 0x1021)
  }

  function TwoStep(r: bv16, bits: bv16): bv16 {
    (r << 2) ^ ((((r >> 14) ^ bits) & 3) * 0x1021)
  }

  // Bits above the low 16 of the accumulator never matter.
  lemma AccumulatorMasked(crc: bv32, nibble: bv32)
    ensures Low(NibbleStep(crc, nibble)) == ShortStep(Low(crc), Low(nibble))
  {
    var sum := ((crc >> 12) ^ nibble) & 0xF;
    SameSum(crc, nibble);
    SameLow(crc, sum);
  }

  lemma SameSum(crc: bv32, n: bv32)
    ensures (((crc >> 12) ^ n) & 0xF) as bv16
            == ((((crc & 0xFFFF) as bv16) >> 12) ^ ((n & 0xFFFF) as bv16)) & 0xF
  {
  }

  lemma SameLow(crc: bv32, s: bv32)
    requires s <= 0xF
    ensures (((crc << 4) ^ (s << 12) ^ (s << 5) ^ s) & 0xFFFF) as bv16
            == (((crc & 0xFFFF) as bv16) << 4) ^ ((s as bv16) * 0x1021)
  {
  }

  lemma TwoBits(r: bv16, n: bv16)
    ensures BitStep(BitStep(r, n >> 1), n) == TwoStep(r, n)
  {
  }

  lemma TwiceTwoBits(r: bv16, n: bv16)
    ensures TwoStep(TwoStep(r, n >> 2), n) == ShortStep(r, n)
  {
  }

  lemma ThreeIsTwoAndOne(n: bv16)
    ensures (n >> 2) >> 1 == n >> 3
  {
  }

  lemma ShortStepIsFourBits(r: bv16, n: bv16)
    ensures ShortStep(r, n) == BitStep(BitStep(BitStep(BitStep(r, n >> 3), n >> 2), n >> 1), n)
  {
    hide BitStep, TwoStep, ShortStep;
    ThreeIsTwoAndOne(n);
    TwoBits(r, n >> 2);
    TwoBits(TwoStep(r, n >> 2), n);
    TwiceTwoBits(r, n);
  }

  // Only the last bit of bit counts.
  lemma LastBit(r: bv16, a: bv16, b: bv16)
    requires a & 1 == b & 1
    ensures BitStep(r, a) == BitStep(r, b)
  {
    SameCarry(r >> 15, a, b);
  }

  lemma SameCarry(c: bv16, a: bv16, b: bv16)
    requires a & 1 == b & 1
    ensures (c ^ a) & 1 == (c ^ b) & 1
  {
  }

  // The nibble that is brought down next holds the next four bits.
  lemma NibbleBits(quad: bv32, nibble: bv32)
    requires nibble & 0xF == quad >> 28
    ensures Top(quad) & 1 == (Low(nibble) >> 3) & 1
    ensures Top(quad << 1) & 1 == (Low(nibble) >> 2) & 1
    ensures Top(quad << 2) & 1 == (Low(nibble) >> 1) & 1
    ensures Top(quad << 3) & 1 == Low(nibble) & 1
  {
  }

  lemma Shifts(quad: bv32)
    ensures (quad << 1) << 1 == quad << 2 && (quad << 2) << 1 == quad << 3 && (quad << 3) << 1 == quad << 4
  {
  }

  // One nibble step divides by four more bits.
  lemma NibbleStepDivides(crc: bv32, quad: bv32, nibble: bv32, n: nat)
    requires nibble & 0xF == quad >> 28 && n >= 4
    ensures Divide(Low(crc), quad, n) == Divide(Low(NibbleStep(crc, nibble)), quad << 4, n - 4)
  {
    hide BitStep, ShortStep, NibbleStep, Low, Top;
    AccumulatorMasked(crc, nibble);
    var low := Low(nibble);
    ShortStepIsFourBits(Low(crc), low);
    NibbleBits(quad, nibble);
    Shifts(quad);
    var a := BitStep(Low(crc), Top(quad));
    LastBit(Low(crc), Top(quad), low >> 3);
    var b := BitStep(a, Top(quad << 1));
    LastBit(a, Top(quad << 1), low >> 2);
    var c := BitStep(b, Top(quad << 2));
    LastBit(b, Top(quad << 2), low >> 1);
    LastBit(c, Top(quad << 3), low);
    assert Divide(Low(crc), quad, n) == Divide(a, quad << 1, n - 1);
    assert Divide(a, quad << 1, n - 1) == Divide(b, quad << 2, n - 2);
    assert Divide(b, quad << 2, n - 2) == Divide(c, quad << 3, n - 3);
  }

  // ----- the loops -----

  // The shifted quadlet of each turn of the loop; its low four bits are used.
  function Shifted(quad: bv32, shift: nat): bv32
    requires shift % 4 == 0 && shift <= 28
  {
    if shift == 28 then quad >> 28
    else if shift == 24 then quad >> 24
    else if shift == 20 then quad >> 20
    else if shift == 16 then quad >> 16
    else if shift == 12 then quad >> 12
    else if shift == 8 then quad >> 8
    else if shift == 4 then quad >> 4
    else quad
  }

  // The quadlet without the bits brought down before the turn for shift.
  function Left(quad: bv32, shift: int): bv32
    requires shift % 4 == 0 && -4 <= shift <= 28
  {
    if shift == 28 then quad
    else if shift == 24 then quad << 4
    else if shift == 20 then quad << 8
    else if shift == 16 then quad << 12
    else if shift == 12 then quad << 16
    else if shift == 8 then quad << 20
    else if shift == 4 then quad << 24
    else if shift == 0 then quad << 28
    else 0
  }

  lemma ShiftedIsTop(q: bv32, shift: nat)
    requires shift % 4 == 0 && shift <= 28
    ensures Shifted(q, shift) & 0xF == Left(q, shift) >> 28
    ensures Left(q, shift - 4) == Left(q, shift) << 4
  {
    if shift == 28 {
      Upper28(q);
    } else if shift == 24 {
      Upper24(q);
    } else if shift == 20 {
      Upper20(q);
    } else if shift == 16 {
      Upper16(q);
    } else if shift == 12 {
      Upper12(q);
    } else if shift == 8 {
      Upper8(q);
    } else if shift == 4 {
      Upper4(q);
    } else {
      Upper0(q);
    }
  }

  lemma Upper28(q: bv32)
    ensures (q >> 28) & 0xF == q >> 28
  {
  }

  lemma Upper24(q: bv32)
    ensures (q >> 24) & 0xF == (q << 4) >> 28
    ensures q << 8 == (q << 4) << 4
  {
  }

  lemma Upper20(q: bv32)
    ensures (q >> 20) & 0xF == (q << 8) >> 28
    ensures q << 12 == (q << 8) << 4
  {
  }

  lemma Upper16(q: bv32)
    ensures (q >> 16) & 0xF == (q << 12) >> 28
    ensures q << 16 == (q << 12) << 4
  {
  }

  lemma Upper12(q: bv32)
    ensures (q >> 12) & 0xF == (q << 16) >> 28
    ensures q << 20 == (q << 16) << 4
  {
  }

  lemma Upper8(q: bv32)
    ensures (q >> 8) & 0xF == (q << 20) >> 28
    ensures q << 24 == (q << 20) << 4
  {
  }

  lemma Upper4(q: bv32)
    ensures (q >> 4) & 0xF == (q << 24) >> 28
    ensures q << 28 == (q << 24) << 4
  {
  }

  lemma Upper0(q: bv32)
    ensures q & 0xF == (q << 28) >> 28
    ensures 0 == (q << 28) << 4
  {
  }

  // The loop over one quadlet; the accumulator is not masked.
  method AddQuad(crc0: bv32, quad: bv32) returns (crc: bv32)
    ensures Low(crc) == Divide(Low(crc0), quad, 32)
  {
    hide NibbleStep, Shifted, Low, Divide, Left;
    crc := crc0;
    var shift := 28;
    NothingLeftOut(quad);
    while shift >= 0
      invariant -4 <= shift <= 28 && shift % 4 == 0
      invariant Divide(Low(crc), Left(quad, shift), shift + 4) == Divide(Low(crc0), quad, 32)
    {
      ShiftedIsTop(quad, shift);
      NibbleStepDivides(crc, Left(quad, shift), Shifted(quad, shift), shift + 4);
      crc := NibbleStep(crc, Shifted(quad, shift));
      shift := shift - 4;
    }
    NoBits(Low(crc), Left(quad, shift));
  }

  lemma NothingLeftOut(quad: bv32)
    ensures Left(quad, 28) == quad
  {
  }

  lemma NoBits(r: bv16, quad: bv32)
    ensures Divide(r, quad, 0) == r
  {
  }

  lemma Widen(crc16: bv16)
    ensures Low(crc16 as bv32) == crc16
  {
  }

  // FWUpdateCRC16.
  method UpdateCRC16(crc16: bv16, quad: bv32) returns (r: bv16)
    ensures r == Divide(crc16, quad, 32)
  {
    hide Divide;
    Widen(crc16);
    var crc := AddQuad(crc16 as bv32, quad);
    r := (crc & 0xFFFF) as bv16;
  }

  // FWComputeCRC16: the same as updating from 0, although the accumulator is
  // masked only at the end.
  method ComputeCRC16(quads: seq<bv32>) returns (r: bv16)
    ensures r == Crc(0, quads)
  {
    hide Divide;
    var crc16: bv32 := 0;
    var quadNum := 0;
    while quadNum < |quads|
      invariant 0 <= quadNum <= |quads|
      invariant Low(crc16) == Crc(0, quads[..quadNum])
    {
      hide Crc, Low;
      CrcAppend(0, quads[..quadNum], quads[quadNum]);
      assert quads[..quadNum + 1] == quads[..quadNum] + [quads[quadNum]];
      crc16 := AddQuad(crc16, quads[quadNum]);
      quadNum := quadNum + 1;
    }
    assert quads[..quadNum] == quads;
    r := (crc16 & 0xFFFF) as bv16;
  }

  lemma {:induction false} CrcAppend(r: bv16, quads: seq<bv32>, quad: bv32)
    ensures Crc(r, quads + [quad]) == Divide(Crc(r, quads), quad, 32)
    decreases quads
  {
    hide Divide;
    if quads == [] {
      assert ([] + [quad])[1..] == [];
    } else {
      assert (quads + [quad])[1..] == quads[1..] + [quad];
      CrcAppend(Divide(r, quads[0], 32), quads[1..], quad);
    }
  }

  // ----- linearity -----

  lemma BitStepLinear(r: bv16, s: bv16, a: bv16, b: bv16)
    ensures BitStep(Add(r, s), Add(a, b)) == Add(BitStep(r, a), BitStep(s, b))
  {
    hide Carry, Add, BitStep;
    CarryLinear(r, s, a, b);
    TimesGenerator(Carry(r, a), Carry(s, b));
    Rearranged(r << 1, s << 1, Carry(r, a) * 0x1021, Carry(s, b) * 0x1021);
    ShiftLinear(r, s);
    Parts(r, a);
    Parts(s, b);
    Parts(Add(r, s), Add(a, b));
  }

  // What the linear step does to its parts: x^16 leaves x^12 + x^5 + 1, and a
  // remainder of degree below 15 is multiplied by x.
  lemma GeneratorIs(r: bv16)
    ensures BitStep(0, 1) == (1 << 12) ^ (1 << 5) ^ 1
    ensures r < 0x8000 ==> BitStep(r, 0) == r << 1
    ensures BitStep(0x8000, 0) == BitStep(0, 1)
  {
    if r < 0x8000 {
      Parts(r, 0);
      TopIsClear(r);
    }
  }

  lemma TopIsClear(r: bv16)
    requires r < 0x8000
    ensures Carry(r, 0) == 0
  {
  }

  function Carry(r: bv16, bit: bv16): bv16 {
    ((r >> 15) ^ bit) & 1
  }

  lemma Parts(r: bv16, bit: bv16)
    ensures BitStep(r, bit) == Add(r << 1, Carry(r, bit) * 0x1021)
  {
  }

  lemma ShiftLinear(r: bv16, s: bv16)
    ensures Add(r, s) << 1 == Add(r << 1, s << 1)
  {
    hide Add;
    AddIsXor(r, s);
    AddIsXor(r << 1, s << 1);
    ShiftedSum(r, s);
  }

  lemma AddIsXor(a: bv16, b: bv16)
    ensures Add(a, b) == a ^ b
  {
  }

  lemma ShiftedSum(r: bv16, s: bv16)
    ensures (r ^ s) << 1 == (r << 1) ^ (s << 1)
  {
  }

  lemma CarryLinear(r: bv16, s: bv16, a: bv16, b: bv16)
    ensures Carry(Add(r, s), Add(a, b)) == Add(Carry(r, a), Carry(s, b))
    ensures Carry(r, a) <= 1 && Carry(s, b) <= 1
  {
    CarryBits(r, s, a, b);
    LowBit((r >> 15) ^ a);
    LowBit((s >> 15) ^ b);
  }

  lemma CarryBits(r: bv16, s: bv16, a: bv16, b: bv16)
    ensures (((r ^ s) >> 15) ^ (a ^ b)) & 1 == (((r >> 15) ^ a) & 1) ^ (((s >> 15) ^ b) & 1)
  {
  }

  lemma LowBit(a: bv16)
    ensures a & 1 <= 1
  {
  }

  lemma TimesGenerator(a: bv16, b: bv16)
    requires a <= 1 && b <= 1
    ensures Add(a, b) * 0x1021 == Add(a * 0x1021, b * 0x1021)
  {
  }

  lemma Associative(a: bv16, b: bv16, c: bv16)
    ensures Add(Add(a, b), c) == Add(a, Add(b, c))
  {
  }

  lemma Commutative(a: bv16, b: bv16)
    ensures Add(a, b) == Add(b, a)
  {
  }

  lemma Rearranged(a: bv16, b: bv16, c: bv16, d: bv16)
    ensures Add(Add(a, b), Add(c, d)) == Add(Add(a, c), Add(b, d))
  {
    hide Add;
    Associative(a, b, Add(c, d));
    Associative(b, c, d);
    Commutative(b, c);
    Associative(c, b, d);
    Associative(a, c, Add(b, d));
  }

  lemma TopLinear(a: bv32, b: bv32)
    ensures Top(AddWords(a, b)) == Add(Top(a), Top(b))
  {
  }

  lemma WordsLinear(a: bv32, b: bv32)
    ensures AddWords(a, b) << 1 == AddWords(a << 1, b << 1)
  {
    hide AddWords;
    AddWordsIsXor(a, b);
    AddWordsIsXor(a << 1, b << 1);
    ShiftedWords(a, b);
  }

  lemma AddWordsIsXor(a: bv32, b: bv32)
    ensures AddWords(a, b) == a ^ b
  {
  }

  lemma ShiftedWords(a: bv32, b: bv32)
    ensures (a ^ b) << 1 == (a << 1) ^ (b << 1)
  {
  }

  lemma {:induction false} DivideLinear(r: bv16, s: bv16, a: bv32, b: bv32, n: nat)
    ensures Divide(Add(r, s), AddWords(a, b), n) == Add(Divide(r, a, n), Divide(s, b, n))
    decreases n
  {
    hide BitStep, Top, Add, AddWords;
    if n > 0 {
      TopLinear(a, b);
      WordsLinear(a, b);
      BitStepLinear(r, s, Top(a), Top(b));
      DivideLinear(BitStep(r, Top(a)), BitStep(s, Top(b)), a << 1, b << 1, n - 1);
    }
  }

  // Messages added word by word.
  function Sum(xs: seq<bv32>, ys: seq<bv32>): (zs: seq<bv32>)
    requires |xs| == |ys|
    ensures |zs| == |xs|
    decreases xs
  {
    if xs == [] then [] else [AddWords(xs[0], ys[0])] + Sum(xs[1..], ys[1..])
  }

  lemma {:induction false} CrcLinear(r: bv16, s: bv16, xs: seq<bv32>, ys: seq<bv32>)
    requires |xs| == |ys|
    ensures Crc(Add(r, s), Sum(xs, ys)) == Add(Crc(r, xs), Crc(s, ys))
    decreases xs
  {
    hide Divide, Add, AddWords;
    if xs != [] {
      assert Sum(xs, ys)[1..] == Sum(xs[1..], ys[1..]);
      DivideLinear(r, s, xs[0], ys[0], 32);
      CrcLinear(Divide(r, xs[0], 32), Divide(s, ys[0], 32), xs[1..], ys[1..]);
    }
  }

  lemma AddCancels(a: bv16, b: bv16)
    ensures Add(a, b) == a <==> b == 0
  {
  }

  lemma AddItself(a: bv16)
    ensures Add(a, a) == 0
  {
  }

  lemma AddOther(a: bv16, b: bv16)
    requires Add(a, b) == 0
    ensures a == b
  {
  }

  lemma AddZero(a: bv16, b: bv16)
    ensures Add(a, b) == 0 <==> a == b
  {
    hide Add;
    if a == b {
      AddItself(a);
    } else if Add(a, b) == 0 {
      AddOther(a, b);
    }
  }

  lemma AddNothing(a: bv16)
    ensures Add(a, 0) == a
  {
  }

  lemma AddSelf(q: bv32)
    ensures AddWords(q, q) == 0
  {
  }

  // An error goes undetected exactly when it is a multiple of the generator.
  lemma UndetectedErrors(xs: seq<bv32>, error: seq<bv32>)
    requires |xs| == |error|
    ensures Crc(0, Sum(xs, error)) == Crc(0, xs) <==> Crc(0, error) == 0
  {
    hide Divide, Crc, Sum, Add;
    AddNothing(0);
    CrcLinear(0, 0, xs, error);
    AddCancels(Crc(0, xs), Crc(0, error));
  }

  // ----- single errors -----

  // Dividing by more zero bits never makes a remainder vanish.
  lemma {:induction false} ZerosKeepErrors(r: bv16, n: nat)
    ensures Divide(r, 0, n) == 0 <==> r == 0
    decreases n
  {
    hide BitStep, Top;
    if n > 0 {
      ZeroStep(r);
      ZerosKeepErrors(BitStep(r, Top(0)), n - 1);
    }
  }

  lemma ZeroStep(r: bv16)
    ensures BitStep(r, Top(0)) == 0 <==> r == 0
    ensures (0 as bv32) << 1 == 0
  {
  }

  // Exactly one of the first n bits of quad is set, and no later one.
  predicate OneBit(quad: bv32, n: nat)
    decreases n
  {
    n > 0 && if Top(quad) == 1 then quad << 1 == 0 else OneBit(quad << 1, n - 1)
  }

  lemma {:induction false} OneBitLeavesRemainder(quad: bv32, n: nat)
    requires OneBit(quad, n)
    ensures Divide(0, quad, n) != 0
    decreases n
  {
    hide BitStep, Top;
    FirstBit();
    TopIsABit(quad);
    if Top(quad) == 1 {
      ZerosKeepErrors(BitStep(0, 1), n - 1);
    } else {
      OneBitLeavesRemainder(quad << 1, n - 1);
    }
  }

  lemma FirstBit()
    ensures BitStep(0, 1) != 0 && BitStep(0, 0) == 0
  {
  }

  lemma TopIsABit(quad: bv32)
    ensures Top(quad) == 0 || Top(quad) == 1
  {
  }

  // Different remainders stay different.
  lemma {:induction false} CrcInjective(r: bv16, s: bv16, xs: seq<bv32>)
    ensures Crc(r, xs) == Crc(s, xs) <==> r == s
    decreases xs
  {
    hide Divide, Add, AddWords;
    if xs != [] {
      var a, b := Divide(r, xs[0], 32), Divide(s, xs[0], 32);
      DivideLinear(r, s, xs[0], xs[0], 32);
      ZerosKeepErrors(Add(r, s), 32);
      AddSelf(xs[0]);
      AddZero(r, s);
      AddZero(a, b);
      CrcInjective(a, b, xs[1..]);
    }
  }

  // A single wrong bit anywhere in the message is always detected.
  lemma {:induction false} SingleBitErrorDetected(r: bv16, xs: seq<bv32>, i: nat, error: bv32)
    requires i < |xs| && OneBit(error, 32)
    ensures Crc(r, xs[i := AddWords(xs[i], error)]) != Crc(r, xs)
    decreases xs
  {
    hide Divide, OneBit, Add, AddWords;
    var ys := xs[i := AddWords(xs[i], error)];
    if i == 0 {
      assert ys[1..] == xs[1..];
      DivideLinear(r, 0, xs[0], error, 32);
      OneBitLeavesRemainder(error, 32);
      AddNothing(r);
      AddCancels(Divide(r, xs[0], 32), Divide(0, error, 32));
      CrcInjective(Divide(r, ys[0], 32), Divide(r, xs[0], 32), xs[1..]);
    } else {
      assert ys[1..] == xs[1..][i - 1 := AddWords(xs[1..][i - 1], error)];
      SingleBitErrorDetected(Divide(r, xs[0], 32), xs[1..], i - 1, error);
    }
  }
}
