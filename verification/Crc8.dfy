/** The checksum of the register protocol: an 8-bit cyclic redundancy check with the polynomial
    x^8 + x^5 + x^4 + 1 (0x31), which the code computes in a wide accumulator that it never
    masks before the end. */
module Crc8 {

  type Byte = bv8

  // ---------------------------------------------------------------- the 8-bit register

  /** Addition of polynomials. */
  function Add(a: bv8, b: bv8): bv8 {
    a ^ b
  }

  /** One division step. */
  function Shift(crc: bv8): bv8 {
    if crc & 0x80 != 0 then (crc << 1) ^ 0x31 else crc << 1
  }

  function Shifts(crc: bv8, n: nat): bv8 {
    if n == 0 then crc else Shift(Shifts(crc, n - 1))
  }

  /** The register after the bytes of s. */
  function Crc(s: seq<Byte>): bv8 {
    if s == [] then 0 else Shifts(Add(Crc(s[..|s| - 1]), s[|s| - 1]), 8)
  }

  // ---------------------------------------------------------------- the wide accumulator

  function Low(wide: bv32): bv8 {
    (wide & 0xff) as bv8
  }

  function WideShift(wide: bv32): bv32 {
    if wide & 0x80 != 0 then (wide << 1) ^ 0x31 else wide << 1
  }

  /** The upper bits never find their way back into the low byte. */
  lemma LowFollows(wide: bv32, b: Byte)
    ensures Low(WideShift(wide)) == Shift(Low(wide))
    ensures Low(wide ^ (b as bv32)) == Add(Low(wide), b)
  {
  }

  method GetCrc(data: seq<Byte>) returns (crc8: Byte)
    ensures crc8 == Crc(data)
    ensures exists q :: Divides(Bits(data) + ZEROS, q, crc8)
  {
    hide Add, Shift, Low, WideShift;
    LowOfZero();
    var crc: bv32, i := 0, 0;
    while i < |data|
      invariant 0 <= i <= |data| && Low(crc) == Crc(data[..i])
    {
      LowFollows(crc, data[i]);
      crc := crc ^ (data[i] as bv32);
      var k := 0;
      while k < 8
        invariant 0 <= k <= 8 && Low(crc) == Shifts(Add(Crc(data[..i]), data[i]), k)
      {
        LowFollows(crc, 0);
        WideShiftIs(crc);
        crc := if crc & 0x80 != 0 then (crc << 1) ^ 0x31 else crc << 1;
        k := k + 1;
      }
      assert data[..i + 1][..i] == data[..i];
      i := i + 1;
    }
    assert data[..i] == data;
    LowIs(crc);
    crc8 := (crc & 0xff) as bv8;
    CrcIsTheRemainder(data, crc8);
  }

  lemma LowOfZero()
    ensures Low(0) == 0
  {
  }

  lemma LowIs(wide: bv32)
    ensures Low(wide) == (wide & 0xff) as bv8
  {
  }

  lemma WideShiftIs(wide: bv32)
    ensures WideShift(wide) == if wide & 0x80 != 0 then (wide << 1) ^ 0x31 else wide << 1
  {
  }

  // ---------------------------------------------------------------- what it detects

  lemma AddIsAGroup(a: bv8, b: bv8, c: bv8)
    ensures Add(a, b) == Add(b, a) && Add(Add(a, b), c) == Add(a, Add(b, c))
    ensures Add(a, 0) == a && Add(a, a) == 0
  {
  }

  lemma Regroup(a: bv8, b: bv8, x: bv8, y: bv8)
    ensures Add(Add(a, b), Add(x, y)) == Add(Add(a, x), Add(b, y))
  {
    hide Add;
    AddIsAGroup(a, b, Add(x, y));
    AddIsAGroup(b, x, y);
    AddIsAGroup(x, b, y);
    AddIsAGroup(a, x, Add(b, y));
  }

  lemma Cancel(a: bv8, b: bv8, x: bv8)
    ensures Add(a, x) == Add(b, x) ==> a == b
    ensures Add(x, a) == Add(x, b) ==> a == b
  {
  }

  /** Shift, as an addition to the shifted bits. */
  function Poly(crc: bv8): bv8 {
    if crc & 0x80 != 0 then 0x31 else 0
  }

  function Left(crc: bv8): bv8 {
    crc << 1
  }

  lemma ShiftIsAddition(crc: bv8)
    ensures Shift(crc) == Add(Left(crc), Poly(crc))
  {
  }

  lemma PolyIsLinear(a: bv8, b: bv8)
    ensures Poly(Add(a, b)) == Add(Poly(a), Poly(b))
  {
  }

  lemma LeftIsLinear(a: bv8, b: bv8)
    ensures Left(Add(a, b)) == Add(Left(a), Left(b))
  {
  }

  /** A step is linear and can be undone. */
  lemma ShiftIsLinear(a: bv8, b: bv8)
    ensures Shift(Add(a, b)) == Add(Shift(a), Shift(b))
  {
    hide Add, Shift, Left, Poly;
    ShiftIsAddition(a);
    ShiftIsAddition(b);
    ShiftIsAddition(Add(a, b));
    PolyIsLinear(a, b);
    LeftIsLinear(a, b);
    Regroup(Left(a), Left(b), Poly(a), Poly(b));
  }

  lemma ShiftIsInjective(a: bv8, b: bv8)
    requires Shift(a) == Shift(b)
    ensures a == b
  {
  }

  lemma {:induction false} ShiftsAreLinear(a: bv8, b: bv8, n: nat)
    ensures Shifts(Add(a, b), n) == Add(Shifts(a, n), Shifts(b, n))
  {
    hide Add, Shift;
    if n > 0 {
      ShiftsAreLinear(a, b, n - 1);
      ShiftIsLinear(Shifts(a, n - 1), Shifts(b, n - 1));
    }
  }

  lemma {:induction false} ShiftsAreInjective(a: bv8, b: bv8, n: nat)
    requires Shifts(a, n) == Shifts(b, n)
    ensures a == b
  {
    hide Add, Shift;
    if n > 0 {
      ShiftIsInjective(Shifts(a, n - 1), Shifts(b, n - 1));
      ShiftsAreInjective(a, b, n - 1);
    }
  }

  function Sum(s: seq<Byte>, t: seq<Byte>): (r: seq<Byte>)
    requires |s| == |t|
    ensures |r| == |s| && forall i | 0 <= i < |s| :: r[i] == Add(s[i], t[i])
  {
    seq(|s|, i requires 0 <= i < |s| => Add(s[i], t[i]))
  }

  /** The checksum is a linear map on the strings of each length. */
  lemma {:induction false} CrcIsLinear(s: seq<Byte>, t: seq<Byte>)
    requires |s| == |t|
    ensures Crc(Sum(s, t)) == Add(Crc(s), Crc(t))
  {
    hide Add, Shift, Shifts;
    if s == [] {
      assert Sum(s, t) == [];
      Zero();
    } else {
      var n := |s| - 1;
      CrcIsLinear(s[..n], t[..n]);
      assert Sum(s, t)[..n] == Sum(s[..n], t[..n]);
      Regroup(Crc(s[..n]), Crc(t[..n]), s[n], t[n]);
      ShiftsAreLinear(Add(Crc(s[..n]), s[n]), Add(Crc(t[..n]), t[n]), 8);
    }
  }

  lemma Zero()
    ensures Add(0, 0) == 0
  {
  }

  /** Changing one byte changes the checksum, wherever the byte is and however long the string. */
  lemma {:induction false} OneByteChangesCrc(s: seq<Byte>, i: nat, b: Byte)
    requires i < |s| && b != s[i]
    ensures Crc(s[i := b]) != Crc(s)
  {
    hide Add, Shift, Shifts;
    var n := |s| - 1;
    var t := s[i := b];
    if i == n {
      assert t[..n] == s[..n];
    } else {
      OneByteChangesCrc(s[..n], i, b);
      assert t[..n] == s[..n][i := b];
    }
    if Crc(t) == Crc(s) {
      ShiftsAreInjective(Add(Crc(s[..n]), s[n]), Add(Crc(t[..n]), t[n]), 8);
      Cancel(s[n], b, Crc(s[..n]));
      Cancel(Crc(s[..n]), Crc(t[..n]), s[n]);
    }
  }

  lemma {:induction false} ZeroStays(n: nat)
    ensures Shifts(0, n) == 0
  {
    hide Shift;
    if n > 0 {
      ZeroStays(n - 1);
      ShiftOfZero();
    }
  }

  lemma ShiftOfZero()
    ensures Shift(0) == 0
  {
  }

  /** A string followed by its own checksum has the checksum zero, and no other last byte does that. */
  lemma ChecksumCloses(s: seq<Byte>, c: Byte)
    ensures Crc(s + [c]) == 0 <==> c == Crc(s)
  {
    hide Add, Shift, Shifts;
    assert (s + [c])[..|s|] == s;
    ZeroStays(8);
    AddIsAGroup(c, c, c);
    AddIsAGroup(Crc(s), Crc(s), c);
    if Crc(s + [c]) == 0 {
      ShiftsAreInjective(Add(Crc(s), c), 0, 8);
      Cancel(Crc(s), c, c);
    }
  }

  // ---------------------------------------------------------------- what it is

  /** Coefficient k of the polynomial of a byte. */
  predicate Bit(b: bv8, k: int) {
    match k
    case 0 => b & 0x01 != 0
    case 1 => b & 0x02 != 0
    case 2 => b & 0x04 != 0
    case 3 => b & 0x08 != 0
    case 4 => b & 0x10 != 0
    case 5 => b & 0x20 != 0
    case 6 => b & 0x40 != 0
    case 7 => b & 0x80 != 0
    case _ => false
  }

  function ByteBits(b: bv8): seq<bool> {
    [Bit(b, 7), Bit(b, 6), Bit(b, 5), Bit(b, 4), Bit(b, 3), Bit(b, 2), Bit(b, 1), Bit(b, 0)]
  }

  /** A string as a polynomial, its highest coefficient first. */
  function Bits(s: seq<Byte>): seq<bool> {
    if s == [] then [] else Bits(s[..|s| - 1]) + ByteBits(s[|s| - 1])
  }

  predicate Coef(p: seq<bool>, k: int) {
    0 <= k < |p| && p[|p| - 1 - k]
  }

  /** p == q * (x^8 + x^5 + x^4 + 1) + r, coefficient by coefficient modulo 2, with r of degree below 8. */
  ghost predicate Divides(p: seq<bool>, q: seq<bool>, r: bv8) {
    forall k: nat :: Coef(p, k) == (Times(q, k) != Bit(r, k))
  }

  /** Coefficient k of the multiple of the divisor by q. */
  predicate Times(q: seq<bool>, k: int) {
    (Coef(q, k - 8) != Coef(q, k - 5)) != (Coef(q, k - 4) != Coef(q, k))
  }

  /** Long division: one step for each coefficient of the dividend. */
  function Step(r: bv8, b: bool): bv8 {
    Add(Shift(r), if b then 1 else 0)
  }

  function Remainder(p: seq<bool>): bv8 {
    if p == [] then 0 else Step(Remainder(p[..|p| - 1]), p[|p| - 1])
  }

  function Quotient(p: seq<bool>): seq<bool> {
    if p == [] then [] else Quotient(p[..|p| - 1]) + [Bit(Remainder(p[..|p| - 1]), 7)]
  }

  /** One step moves every coefficient up, and takes the divisor off if there is one too many. */
  lemma StepBit(r: bv8, b: bool, k: int)
    requires k >= 0
    ensures Bit(Step(r, b), k) ==
      if k == 0 then b != Bit(r, 7)
      else if k == 4 || k == 5 then Bit(r, k - 1) != Bit(r, 7)
      else k < 8 && Bit(r, k - 1)
  {
  }

  lemma CoefAppend(p: seq<bool>, b: bool, k: int)
    ensures Coef(p + [b], k) == if k == 0 then b else k > 0 && Coef(p, k - 1)
  {
  }

  lemma {:induction false} LongDivision(p: seq<bool>)
    ensures Divides(p, Quotient(p), Remainder(p))
  {
    if p != [] {
      var before, b := p[..|p| - 1], p[|p| - 1];
      var q, r := Quotient(before), Remainder(before);
      LongDivision(before);
      assert p == before + [b];
      Unfold(p);
      hide Quotient, Remainder, Step, Times, Coef, Bit;
      forall k: nat
        ensures Coef(p, k) == (Times(Quotient(p), k) != Bit(Remainder(p), k))
      {
        DivideOn(before, b, q, r, k);
      }
    }
  }

  lemma DivideOn(p: seq<bool>, b: bool, q: seq<bool>, r: bv8, k: nat)
    requires Divides(p, q, r)
    ensures Coef(p + [b], k) == (Times(q + [Bit(r, 7)], k) != Bit(Step(r, b), k))
  {
    hide Coef, Bit, Step;
    CoefAppend(p, b, k);
    CoefAppend(q, Bit(r, 7), k - 8);
    CoefAppend(q, Bit(r, 7), k - 5);
    CoefAppend(q, Bit(r, 7), k - 4);
    CoefAppend(q, Bit(r, 7), k);
    StepBit(r, b, k);
    NoLowCoef(q, k - 9);
    if k > 0 {
      assert Coef(p, k - 1) == (Times(q, k - 1) != Bit(r, k - 1));
      NoLowCoef(q, k - 6);
      NoLowCoef(q, k - 5);
      if k > 8 { NoHighBits(r, k - 1); }
    }
  }

  lemma NoLowCoef(q: seq<bool>, k: int)
    ensures k < 0 ==> !Coef(q, k)
  {
  }

  lemma Unfold(p: seq<bool>)
    requires p != []
    ensures var before := p[..|p| - 1];
      && Quotient(p) == Quotient(before) + [Bit(Remainder(before), 7)]
      && Remainder(p) == Step(Remainder(before), p[|p| - 1])
  {
  }

  /** A division has one quotient: two differ in no coefficient, from the highest downwards. */
  lemma {:induction false} SameQuotient(p: seq<bool>, q: seq<bool>, r: bv8, q': seq<bool>, r': bv8, k: nat, n: nat)
    requires Divides(p, q, r) && Divides(p, q', r') && |q| <= n && |q'| <= n
    ensures Coef(q, k) == Coef(q', k)
    decreases if k < n then n - k else 0
  {
    hide Bit;
    if k < n {
      SameQuotient(p, q, r, q', r', k + 3, n);
      SameQuotient(p, q, r, q', r', k + 4, n);
      SameQuotient(p, q, r, q', r', k + 8, n);
      NoHighBits(r, k + 8);
      NoHighBits(r', k + 8);
      assert Coef(p, k + 8) == (Times(q, k + 8) != Bit(r, k + 8));
      assert Coef(p, k + 8) == (Times(q', k + 8) != Bit(r', k + 8));
    }
  }

  lemma NoHighBits(r: bv8, k: nat)
    requires k >= 8
    ensures !Bit(r, k)
  {
  }

  lemma SameBits(a: bv8, b: bv8)
    requires forall k: nat :: Bit(a, k) == Bit(b, k)
    ensures a == b
  {
    assert Bit(a, 0) == Bit(b, 0) && Bit(a, 1) == Bit(b, 1) && Bit(a, 2) == Bit(b, 2) && Bit(a, 3) == Bit(b, 3);
    assert Bit(a, 4) == Bit(b, 4) && Bit(a, 5) == Bit(b, 5) && Bit(a, 6) == Bit(b, 6) && Bit(a, 7) == Bit(b, 7);
  }

  /** And one remainder. */
  lemma SameRemainder(p: seq<bool>, q: seq<bool>, r: bv8, q': seq<bool>, r': bv8)
    requires Divides(p, q, r) && Divides(p, q', r')
    ensures r == r'
  {
    hide Bit;
    forall k: nat
      ensures Bit(r, k) == Bit(r', k)
    {
      var n := if |q| < |q'| then |q'| else |q|;
      SameQuotient(p, q, r, q', r', k, n);
      if k >= 4 { SameQuotient(p, q, r, q', r', k - 4, n); }
      if k >= 5 { SameQuotient(p, q, r, q', r', k - 5, n); }
      if k >= 8 { SameQuotient(p, q, r, q', r', k - 8, n); }
      assert Coef(p, k) == (Times(q, k) != Bit(r, k)) && Coef(p, k) == (Times(q', k) != Bit(r', k));
    }
    SameBits(r, r');
  }

  /** The register of the code has all eight coefficients of the next byte added at once, at its upper
      end; a division takes them in one by one, at the lower end. */
  lemma {:induction false} StepsFrom(p: seq<bool>, bits: seq<bool>)
    ensures Remainder(p + bits) == Add(Shifts(Remainder(p), |bits|), Remainder(bits))
  {
    hide Add, Shift;
    if bits == [] {
      assert p + bits == p;
      AddIsAGroup(Remainder(p), 0, 0);
    } else {
      var before, b := bits[..|bits| - 1], bits[|bits| - 1];
      StepsFrom(p, before);
      assert (p + bits)[..|p + bits| - 1] == p + before;
      ShiftIsLinear(Shifts(Remainder(p), |before|), Remainder(before));
      AddIsAGroup(Shifts(Remainder(p), |bits|), Shift(Remainder(before)), if b then 1 else 0);
    }
  }

  lemma ByteIsItsRemainder(b: bv8)
    ensures Remainder(ByteBits(b)) == b
  {
    var p := ByteBits(b);
    assert p[..8][..7] == p[..7] && p[..7][..6] == p[..6] && p[..6][..5] == p[..5] && p[..5][..4] == p[..4];
    assert p[..4][..3] == p[..3] && p[..3][..2] == p[..2] && p[..2][..1] == p[..1] && p[..1][..0] == [];
    assert p[..8] == p;
    hide Remainder;
    Prefix(p, 0); Prefix(p, 1); Prefix(p, 2); Prefix(p, 3); Prefix(p, 4); Prefix(p, 5); Prefix(p, 6); Prefix(p, 7);
    EightSteps(b);
  }

  lemma Prefix(p: seq<bool>, n: nat)
    requires n < |p|
    ensures Remainder([]) == 0 && Remainder(p[..n + 1]) == Step(Remainder(p[..n]), p[n])
  {
    assert p[..n + 1][..n] == p[..n];
  }

  lemma EightSteps(b: bv8)
    ensures Step(Step(Step(Step(Step(Step(Step(Step(0, Bit(b, 7)), Bit(b, 6)), Bit(b, 5)), Bit(b, 4)),
                           Bit(b, 3)), Bit(b, 2)), Bit(b, 1)), Bit(b, 0)) == b
  {
  }

  lemma {:induction false} Augmented(s: seq<Byte>)
    ensures Crc(s) == Shifts(Remainder(Bits(s)), 8)
  {
    hide Add, Shift, Shifts, ByteBits;
    if s == [] {
      ZeroStays(8);
    } else {
      var before, b := s[..|s| - 1], s[|s| - 1];
      Augmented(before);
      assert |ByteBits(b)| == 8 by { EightBits(b); }
      StepsFrom(Bits(before), ByteBits(b));
      ByteIsItsRemainder(b);
    }
  }

  lemma EightBits(b: bv8)
    ensures |ByteBits(b)| == 8
  {
  }

  const ZEROS: seq<bool> := [false, false, false, false, false, false, false, false]

  lemma NoRemainder()
    ensures Remainder(ZEROS) == 0
  {
    assert ZEROS == ByteBits(0);
    ByteIsItsRemainder(0);
  }

  /** The checksum is the remainder of the string times x^8 by x^8 + x^5 + x^4 + 1, and nothing else is. */
  lemma CrcIsTheRemainder(s: seq<Byte>, r: Byte)
    ensures r == Crc(s) <==> exists q :: Divides(Bits(s) + ZEROS, q, r)
  {
    hide Add, Shift, Shifts, Divides, Bits, Quotient, Remainder;
    var p := Bits(s) + ZEROS;
    Augmented(s);
    StepsFrom(Bits(s), ZEROS);
    NoRemainder();
    AddIsAGroup(Crc(s), 0, 0);
    LongDivision(p);
    assert Divides(p, Quotient(p), Crc(s));
    if q :| Divides(p, q, r) {
      SameRemainder(p, q, r, Quotient(p), Crc(s));
    }
  }
}
