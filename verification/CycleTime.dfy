/**
 Addition and subtraction of CYCLE_TIME values.
 Source: IOFWUtils.cpp. The format is that of section 8.3.2.3.1 of IEEE Std
 1394-1995: seven bits of seconds, thirteen of cycles, twelve of offset.
 */
module CycleTime {
  import opened Remainders

  const WORD: int := 0x1_0000_0000
  const SECOND: int := 0x0200_0000
  const CYCLE: int := 0x1000

  // The bitwise operators on words.
  function And(a: nat, b: nat): nat {
    if a == 0 || b == 0 then 0 else 2 * And(a / 2, b / 2) + if a % 2 == 1 && b % 2 == 1 then 1 else 0
  }

  function Or(a: nat, b: nat): nat
    decreases a + b
  {
    if a == 0 && b == 0 then 0 else 2 * Or(a / 2, b / 2) + if a % 2 == 1 || b % 2 == 1 then 1 else 0
  }

  function Power(k: nat): (p: nat)
    ensures p > 0
  {
    if k == 0 then 1 else 2 * Power(k - 1)
  }

  // The fields of a word under the three masks of the source.
  function OffsetBits(w: nat): nat {
    And(w, 0x0FFF)
  }

  function CycleBits(w: nat): nat {
    And(w, 0x01FF_F000)
  }

  function SecondBits(w: nat): nat {
    And(w, 0xFE00_0000)
  }

  predicate Word(w: int) {
    0 <= w < WORD
  }

  // A CYCLE_TIME value: 3072 offsets to a cycle, 8000 cycles to a second.
  predicate Valid(w: int) {
    Word(w) && OffsetBits(w) < 3072 && CycleBits(w) < 8000 * CYCLE
  }

  // Two's complement: the 32-bit word that a signed value is stored as.
  function Wrap(x: int): nat {
    x % WORD
  }

  // AddFWCycleTimeToFWCycleTime on unsigned words.
  function AddTimes(t1: nat, t2: nat): nat {
    var cycleOffset0 := OffsetBits(t1) + OffsetBits(t2);
    var cycleCount0 := CycleBits(t1) + CycleBits(t2);
    var cycleCount1 := if cycleOffset0 > 3071 then cycleCount0 + 0x1000 else cycleCount0;
    var cycleOffset := if cycleOffset0 > 3071 then cycleOffset0 - 3072 else cycleOffset0;
    var secondCount0 := Wrap(SecondBits(t1) + SecondBits(t2));
    var secondCount := if cycleCount1 > 7999 * 0x1000 then Wrap(secondCount0 + 0x0200_0000) else secondCount0;
    var cycleCount := if cycleCount1 > 7999 * 0x1000 then Wrap(cycleCount1 - 8000 * 0x1000) else cycleCount1;
    Or(Or(secondCount, cycleCount), cycleOffset)
  }

  // SubtractFWCycleTimeFromFWCycleTime on signed words.
  function SubtractTimes(t1: nat, t2: nat): nat {
    var cycleOffset0 := OffsetBits(t1) - OffsetBits(t2);
    var cycleCount0 := CycleBits(t1) - CycleBits(t2);
    var cycleCount1 := if cycleOffset0 < 0 then cycleCount0 - 0x1000 else cycleCount0;
    var cycleOffset := if cycleOffset0 < 0 then cycleOffset0 + 3072 else cycleOffset0;
    var secondCount0 := SecondBits(t1) - SecondBits(t2);
    var secondCount := if cycleCount1 < 0 then secondCount0 - 0x0200_0000 else secondCount0;
    var cycleCount := if cycleCount1 < 0 then cycleCount1 + 8000 * 0x1000 else cycleCount1;
    Or(Or(Wrap(secondCount), Wrap(cycleCount)), Wrap(cycleOffset))
  }

  // ----- masks and fields -----

  lemma HalfRemainder(w: nat, p: nat)
    requires p > 0
    ensures w % (2 * p) == 2 * (w / 2 % p) + w % 2
  {
    var q, r := w / 2 / p, w / 2 % p;
    assert w == 2 * p * q + (2 * r + w % 2) by {
      assert w / 2 == p * q + r;
    }
    Remainder(w, 2 * p, q, 2 * r + w % 2);
  }

  lemma AndNothing(w: nat)
    ensures And(w, 0) == 0
  {
  }

  lemma AndEven(w: nat, mask: nat)
    ensures And(w, 2 * mask) == 2 * And(w / 2, mask)
  {
    hide And;
    var m := 2 * mask;
    assert m / 2 == mask && m % 2 == 0;
    AndOnce(w, m);
  }

  lemma AndOdd(w: nat, mask: nat)
    ensures And(w, 2 * mask + 1) == 2 * And(w / 2, mask) + w % 2
  {
    hide And;
    var m := 2 * mask + 1;
    assert m / 2 == mask && m % 2 == 1;
    AndOnce(w, m);
  }

  lemma AndOnce(a: nat, b: nat)
    ensures And(a, b) == 2 * And(a / 2, b / 2) + if a % 2 == 1 && b % 2 == 1 then 1 else 0
  {
  }

  // A field one bit further up.
  lemma FieldUp(w: nat, p: nat, q: nat)
    requires 0 < q <= p && And(w / 2, p - q) == Rem(w / 2, p) - Rem(w / 2, q)
    ensures And(w, 2 * p - 2 * q) == Rem(w, 2 * p) - Rem(w, 2 * q)
  {
    hide And;
    HalfRemainder(w, p);
    HalfRemainder(w, q);
    AndEven(w, p - q);
    assert 2 * (p - q) == 2 * p - 2 * q;
  }

  // A field at the lower end, one bit wider.
  lemma FieldWider(w: nat, p: nat)
    requires p > 0 && And(w / 2, p - 1) == Rem(w / 2, p)
    ensures And(w, 2 * p - 1) == Rem(w, 2 * p)
  {
    hide And;
    HalfRemainder(w, p);
    AndOdd(w, p - 1);
    assert 2 * (p - 1) + 1 == 2 * p - 1;
  }

  function Rem(w: nat, p: nat): nat
    requires p > 0
  {
    w % p
  }

  // A mask of the bits from i to j cuts out what is between two remainders.
  lemma {:induction false} AndIsField(w: nat, i: nat, j: nat)
    requires i <= j
    ensures Power(i) <= Power(j)
    ensures And(w, Power(j) - Power(i)) == Rem(w, Power(j)) - Rem(w, Power(i))
    decreases j
  {
    hide And, Rem;
    AndNothing(w);
    if i == j {
    } else if i > 0 {
      AndIsField(w / 2, i - 1, j - 1);
      FieldUp(w, Power(j - 1), Power(i - 1));
    } else {
      NoRemainder(w);
      NoRemainder(w / 2);
      AndIsField(w / 2, 0, j - 1);
      FieldWider(w, Power(j - 1));
    }
  }

  lemma NoRemainder(w: nat)
    ensures Rem(w, 1) == 0
  {
  }

  // Values that share no bit are put together by a sum.
  lemma {:induction false} OrIsSum(a: nat, b: nat, k: nat)
    requires a % Power(k) == 0 && b < Power(k)
    ensures Or(a, b) == a + b
    decreases k, a
  {
    if k > 0 {
      HalfRemainder(a, Power(k - 1));
      OrIsSum(a / 2, b / 2, k - 1);
    } else if a > 0 {
      OrIsSum(a / 2, 0, 0);
    }
  }

  lemma Powers()
    ensures Power(0) == 1 && Power(12) == CYCLE && Power(25) == SECOND && Power(32) == WORD
  {
    assert Power(12) == CYCLE;
    assert Power(25) == SECOND;
  }

  lemma MasksCutFields(w: nat)
    requires Word(w)
    ensures OffsetBits(w) == w % CYCLE && CycleBits(w) == w % SECOND - w % CYCLE && SecondBits(w) == w - w % SECOND
  {
    hide And;
    Powers();
    AndIsField(w, 0, 12);
    AndIsField(w, 12, 25);
    AndIsField(w, 25, 32);
  }

  // The source's last line, for fields in their places.
  lemma FieldsTogether(s: nat, c: nat, o: nat)
    requires s < 128 && c < 8000 && o < 3072
    ensures Or(Or(s * SECOND, c * CYCLE), o) == Packed(s, c, o)
  {
    hide Or;
    Powers();
    OrIsSum(s * SECOND, c * CYCLE, 25);
    assert s * SECOND + c * CYCLE == (s * 0x2000 + c) * CYCLE;
    OrIsSum(s * SECOND + c * CYCLE, o, 12);
  }

  // ----- ticks -----

  const TICKS: int := 128 * 8000 * 3072

  function Ticks(w: nat): int {
    (SecondBits(w) / SECOND * 8000 + CycleBits(w) / CYCLE) * 3072 + OffsetBits(w)
  }

  // A word by its fields.
  function Packed(s: nat, c: nat, o: nat): nat {
    s * SECOND + c * CYCLE + o
  }

  lemma Unpacked(s: nat, c: nat, o: nat)
    requires 0 <= s < 128 && 0 <= c < 8000 && 0 <= o < 3072
    ensures var w := Packed(s, c, o);
            Valid(w) && OffsetBits(w) == o && CycleBits(w) == c * CYCLE && SecondBits(w) == s * SECOND
            && Ticks(w) == (s * 8000 + c) * 3072 + o
  {
    hide And;
    var w := Packed(s, c, o);
    assert w == (s * 0x2000 + c) * CYCLE + o;
    assert w % CYCLE == o;
    assert w % SECOND == c * CYCLE + o;
    MasksCutFields(w);
  }

  lemma Fields(w: nat) returns (s: nat, c: nat, o: nat)
    requires Valid(w)
    ensures 0 <= s < 128 && 0 <= c < 8000 && 0 <= o < 3072 && w == Packed(s, c, o)
  {
    hide And;
    MasksCutFields(w);
    s, o := w / SECOND, w % CYCLE;
    c := (w % SECOND) / CYCLE;
    assert w % SECOND == c * CYCLE + (w % SECOND) % CYCLE;
    assert (w % SECOND) % CYCLE == w % CYCLE by {
      assert w == (s * 0x2000 + c) * CYCLE + (w % SECOND) % CYCLE;
    }
  }

  lemma TicksInRange(w: nat)
    requires Valid(w)
    ensures 0 <= Ticks(w) < TICKS
  {
    hide Valid, Ticks;
    var s, c, o := Fields(w);
    Unpacked(s, c, o);
  }

  // A valid time is determined by its ticks.
  lemma TicksInjective(v: nat, w: nat)
    requires Valid(v) && Valid(w) && Ticks(v) == Ticks(w)
    ensures v == w
  {
    hide Valid, Ticks, Packed;
    var s, c, o := Fields(v);
    Unpacked(s, c, o);
    var s', c', o' := Fields(w);
    Unpacked(s', c', o');
    assert s * 8000 + c == s' * 8000 + c' && o == o';
  }

  lemma WrapSeconds(k: int)
    requires -128 <= k < 256
    ensures Wrap(k * SECOND) == (if k < 0 then k + 128 else if k >= 128 then k - 128 else k) * SECOND
  {
  }

  lemma WrapSmall(x: int)
    ensures 0 <= x < WORD ==> Wrap(x) == x
  {
  }

  // Addition and subtraction modulo the number of ticks.
  function Modulo(a: int): int
    requires -TICKS <= a < 2 * TICKS
  {
    if a < 0 then a + TICKS else if a >= TICKS then a - TICKS else a
  }

  lemma ModuloIsRemainder(a: int)
    requires -TICKS <= a < 2 * TICKS
    ensures a % TICKS == Modulo(a)
  {
  }

  lemma AddPacked(s1: nat, c1: nat, o1: nat, s2: nat, c2: nat, o2: nat)
    requires 0 <= s1 < 128 && 0 <= c1 < 8000 && 0 <= o1 < 3072
    requires 0 <= s2 < 128 && 0 <= c2 < 8000 && 0 <= o2 < 3072
    ensures var o := if o1 + o2 > 3071 then o1 + o2 - 3072 else o1 + o2;
            var c0 := if o1 + o2 > 3071 then c1 + c2 + 1 else c1 + c2;
            var c := if c0 > 7999 then c0 - 8000 else c0;
            var s0 := if c0 > 7999 then s1 + s2 + 1 else s1 + s2;
            var s := if s0 >= 128 then s0 - 128 else s0;
            AddTimes(Packed(s1, c1, o1), Packed(s2, c2, o2)) == Packed(s, c, o)
  {
    hide Valid, Ticks, OffsetBits, CycleBits, SecondBits, Wrap, Or, Packed;
    Unpacked(s1, c1, o1);
    Unpacked(s2, c2, o2);
    WrapSeconds(s1 + s2);
    var s' := if s1 + s2 >= 128 then s1 + s2 - 128 else s1 + s2;
    WrapSeconds(s' + 1);
    var o := if o1 + o2 > 3071 then o1 + o2 - 3072 else o1 + o2;
    var c0 := if o1 + o2 > 3071 then c1 + c2 + 1 else c1 + c2;
    var s0 := if c0 > 7999 then s1 + s2 + 1 else s1 + s2;
    WrapSmall((c0 - 8000) * CYCLE);
    FieldsTogether(if s0 >= 128 then s0 - 128 else s0, if c0 > 7999 then c0 - 8000 else c0, o);
  }

  lemma SubtractPacked(s1: nat, c1: nat, o1: nat, s2: nat, c2: nat, o2: nat)
    requires 0 <= s1 < 128 && 0 <= c1 < 8000 && 0 <= o1 < 3072
    requires 0 <= s2 < 128 && 0 <= c2 < 8000 && 0 <= o2 < 3072
    ensures var o: int := if o1 - o2 < 0 then o1 - o2 + 3072 else o1 - o2;
            var c0: int := if o1 - o2 < 0 then c1 - c2 - 1 else c1 - c2;
            var c := if c0 < 0 then c0 + 8000 else c0;
            var s0: int := if c0 < 0 then s1 - s2 - 1 else s1 - s2;
            var s := if s0 < 0 then s0 + 128 else s0;
            SubtractTimes(Packed(s1, c1, o1), Packed(s2, c2, o2)) == Packed(s, c, o)
  {
    hide Valid, Ticks, OffsetBits, CycleBits, SecondBits, Wrap, Or, Packed;
    Unpacked(s1, c1, o1);
    Unpacked(s2, c2, o2);
    WrapSeconds(s1 - s2);
    WrapSeconds(s1 - s2 - 1);
    var o: int := if o1 - o2 < 0 then o1 - o2 + 3072 else o1 - o2;
    var c0: int := if o1 - o2 < 0 then c1 - c2 - 1 else c1 - c2;
    var c := if c0 < 0 then c0 + 8000 else c0;
    var s0: int := if c0 < 0 then s1 - s2 - 1 else s1 - s2;
    WrapSmall(c * CYCLE);
    WrapSmall(o);
    FieldsTogether(if s0 < 0 then s0 + 128 else s0, c, o);
  }

  lemma AddIsTickAddition(t1: nat, t2: nat)
    requires Valid(t1) && Valid(t2)
    ensures Valid(AddTimes(t1, t2)) && Ticks(AddTimes(t1, t2)) == (Ticks(t1) + Ticks(t2)) % TICKS
  {
    hide Valid, Ticks, AddTimes, Packed, OffsetBits, CycleBits, SecondBits;
    var s1, c1, o1 := Fields(t1);
    Unpacked(s1, c1, o1);
    var s2, c2, o2 := Fields(t2);
    Unpacked(s2, c2, o2);
    AddPacked(s1, c1, o1, s2, c2, o2);
    var o := if o1 + o2 > 3071 then o1 + o2 - 3072 else o1 + o2;
    var c0 := if o1 + o2 > 3071 then c1 + c2 + 1 else c1 + c2;
    var s0 := if c0 > 7999 then s1 + s2 + 1 else s1 + s2;
    Unpacked(if s0 >= 128 then s0 - 128 else s0, if c0 > 7999 then c0 - 8000 else c0, o);
    ModuloIsRemainder(Ticks(t1) + Ticks(t2));
  }

  lemma SubtractIsTickSubtraction(t1: nat, t2: nat)
    requires Valid(t1) && Valid(t2)
    ensures Valid(SubtractTimes(t1, t2)) && Ticks(SubtractTimes(t1, t2)) == (Ticks(t1) - Ticks(t2)) % TICKS
  {
    hide Valid, Ticks, SubtractTimes, Packed, OffsetBits, CycleBits, SecondBits;
    var s1: int, c1: int, o1: int := Fields(t1);
    Unpacked(s1, c1, o1);
    var s2: int, c2: int, o2: int := Fields(t2);
    Unpacked(s2, c2, o2);
    SubtractPacked(s1, c1, o1, s2, c2, o2);
    var o := if o1 - o2 < 0 then o1 - o2 + 3072 else o1 - o2;
    var c0 := if o1 - o2 < 0 then c1 - c2 - 1 else c1 - c2;
    var s0 := if c0 < 0 then s1 - s2 - 1 else s1 - s2;
    Unpacked(if s0 < 0 then s0 + 128 else s0, if c0 < 0 then c0 + 8000 else c0, o);
    ModuloIsRemainder(Ticks(t1) - Ticks(t2));
  }

  // ----- the group laws -----

  lemma SubtractUndoesAdd(t1: nat, t2: nat)
    requires Valid(t1) && Valid(t2)
    ensures SubtractTimes(AddTimes(t1, t2), t2) == t1
  {
    hide Valid, Ticks, AddTimes, SubtractTimes;
    AddIsTickAddition(t1, t2);
    SubtractIsTickSubtraction(AddTimes(t1, t2), t2);
    TicksInRange(t1);
    TicksInRange(t2);
    TicksInjective(SubtractTimes(AddTimes(t1, t2), t2), t1);
  }

  lemma AddUndoesSubtract(t1: nat, t2: nat)
    requires Valid(t1) && Valid(t2)
    ensures AddTimes(SubtractTimes(t1, t2), t2) == t1
  {
    hide Valid, Ticks, AddTimes, SubtractTimes;
    SubtractIsTickSubtraction(t1, t2);
    AddIsTickAddition(SubtractTimes(t1, t2), t2);
    TicksInRange(t1);
    TicksInRange(t2);
    TicksInjective(AddTimes(SubtractTimes(t1, t2), t2), t1);
  }

  lemma AddCommutes(t1: nat, t2: nat)
    requires Valid(t1) && Valid(t2)
    ensures AddTimes(t1, t2) == AddTimes(t2, t1)
  {
    hide Valid, Ticks, AddTimes;
    AddIsTickAddition(t1, t2);
    AddIsTickAddition(t2, t1);
    TicksInjective(AddTimes(t1, t2), AddTimes(t2, t1));
  }

  lemma AddAssociates(t1: nat, t2: nat, t3: nat)
    requires Valid(t1) && Valid(t2) && Valid(t3)
    ensures AddTimes(AddTimes(t1, t2), t3) == AddTimes(t1, AddTimes(t2, t3))
  {
    hide Valid, Ticks, AddTimes;
    AddIsTickAddition(t1, t2);
    AddIsTickAddition(t2, t3);
    AddIsTickAddition(AddTimes(t1, t2), t3);
    AddIsTickAddition(t1, AddTimes(t2, t3));
    TicksInRange(t1);
    TicksInRange(t2);
    TicksInRange(t3);
    ModuloIsRemainder(Ticks(t1) + Ticks(t2));
    ModuloIsRemainder(Ticks(t2) + Ticks(t3));
    ModuloIsRemainder(Modulo(Ticks(t1) + Ticks(t2)) + Ticks(t3));
    ModuloIsRemainder(Ticks(t1) + Modulo(Ticks(t2) + Ticks(t3)));
    TicksInjective(AddTimes(AddTimes(t1, t2), t3), AddTimes(t1, AddTimes(t2, t3)));
  }

  lemma ZeroIsNeutral(t: nat)
    requires Valid(t)
    ensures Valid(0) && AddTimes(t, 0) == t && SubtractTimes(t, t) == 0
  {
    hide Ticks, AddTimes, SubtractTimes;
    assert Valid(0) && Ticks(0) == 0 by { Unpacked(0, 0, 0); }
    AddIsTickAddition(t, 0);
    SubtractIsTickSubtraction(t, t);
    TicksInRange(t);
    TicksInjective(AddTimes(t, 0), t);
    TicksInjective(SubtractTimes(t, t), 0);
  }
}
