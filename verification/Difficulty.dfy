/** The compact ("nBits") encoding of mining targets: an 8-bit base-256 exponent, a sign
    bit and a 23-bit mantissa packed in one 32-bit word. Masks of low bits are written as
    remainders; shifts by whole bytes are those of module Shift. */
module Difficulty {
  import opened Bytes
  import opened Shift

  const SIGN := 0x80_0000
  const EXPONENT := 0x100_0000

  /** 2^2039, the first magnitude whose exponent no longer fits in eight bits. */
  function Limit(): int {
    ShiftLeft(0x80, 254)
  }

  function Magnitude(mantissa: int, exponent: nat): int {
    if exponent <= 3 then ShiftRight(mantissa, 3 - exponent) else ShiftLeft(mantissa, exponent - 3)
  }

  function CompactToBig(compact: Uint32): int {
    var mantissa := compact % SIGN;
    var isNegative := (compact / SIGN) % 2 == 1;
    var exponent := compact / EXPONENT;
    var bn := Magnitude(mantissa, exponent);
    if isNegative then -bn else bn
  }

  /** The number of bytes of |n|: Go's len(n.Bytes()). */
  function ByteLen(n: nat): nat {
    if n == 0 then 0 else 1 + ByteLen(n / 256)
  }

  function Abs(n: int): nat {
    if n < 0 then -n else n
  }

  /** The mantissa before the sign-bit test. Rsh floors, so the magnitude of a negative
      number is rounded up and can reach 2^24. */
  function RawMantissa(n: int): nat {
    var exponent := ByteLen(Abs(n));
    if exponent <= 3 then Abs(ShiftLeft(Abs(n), 3 - exponent)) else Abs(ShiftRight(n, exponent - 3))
  }

  /** exponent<<24 truncated to 32 bits, or-ed with a mantissa of at most 25 bits: only bit
      24 can be set on both sides. */
  function Pack(exponent: nat, mantissa: nat): (w: nat)
    requires mantissa <= EXPONENT
    ensures mantissa < EXPONENT ==> w == exponent % 256 * EXPONENT + mantissa
    ensures w <= 255 * EXPONENT + (if mantissa == EXPONENT then 0 else mantissa)
  {
    var high := exponent % 256;
    assert high <= 255;
    if mantissa < EXPONENT then high * EXPONENT + mantissa
    else if high % 2 == 1 then high * EXPONENT
    else assert high < 255; (high + 1) * EXPONENT
  }

  function BigToCompact(n: int): Uint32 {
    if n == 0 then 0 else
      RawMantissaBound(n);
      var exponent := ByteLen(Abs(n));
      var mantissa := RawMantissa(n);
      var carry := (mantissa / SIGN) % 2 == 1;
      var compact := if carry then Pack(exponent + 1, mantissa / 256) else Pack(exponent, mantissa);
      if n < 0 then compact + SIGN else compact
  }

  lemma {:induction false} ByteLenBounds(n: nat)
    requires n > 0
    ensures ByteLen(n) >= 1
    ensures Pow256(ByteLen(n) - 1) <= n < Pow256(ByteLen(n))
  {
    if n >= 256 {
      ByteLenBounds(n / 256);
    } else {
      assert ByteLen(n / 256) == 0;
      SmallPowers();
    }
  }

  lemma RawMantissaBound(n: int)
    requires n != 0
    ensures 0x1_0000 <= RawMantissa(n) <= EXPONENT
    ensures n > 0 ==> RawMantissa(n) < EXPONENT
    ensures n > 0 && ByteLen(n) <= 3 ==> RawMantissa(n) == ShiftLeft(n, 3 - ByteLen(n))
    ensures n > 0 && ByteLen(n) > 3 ==> RawMantissa(n) == ShiftRight(n, ByteLen(n) - 3)
  {
    if n > 0 {
      PositiveRaw(n);
    } else {
      NegativeRaw(n);
    }
  }

  lemma PositiveRaw(n: nat)
    requires n > 0
    ensures 0x1_0000 <= RawMantissa(n) < EXPONENT
    ensures ByteLen(n) <= 3 ==> RawMantissa(n) == ShiftLeft(n, 3 - ByteLen(n))
    ensures ByteLen(n) > 3 ==> RawMantissa(n) == ShiftRight(n, ByteLen(n) - 3)
  {
    ByteLenBounds(n);
    if ByteLen(n) <= 3 {
      ScaledUp(n, ByteLen(n));
    } else {
      ScaledDown(n, ByteLen(n));
    }
  }

  lemma NegativeRaw(n: int)
    requires n < 0
    ensures 0x1_0000 <= RawMantissa(n) <= EXPONENT
  {
    var e := ByteLen(-n);
    assert Abs(n) == -n;
    ByteLenBounds(-n);
    if e <= 3 {
      ScaledUp(-n, e);
    } else {
      NegativeScaledDown(n, e);
    }
  }

  lemma ScaledUp(w: int, e: nat)
    requires 1 <= e <= 3 && Pow256(e - 1) <= w < Pow256(e)
    ensures 0x1_0000 <= ShiftLeft(w, 3 - e) < EXPONENT
  {
    SmallPowers();
    LeftTwice(1, e - 1, 3 - e);
    LeftTwice(1, e, 3 - e);
    LeftOrder(w, Pow256(e - 1), 3 - e);
    LeftOrder(w, Pow256(e), 3 - e);
  }

  lemma ScaledDown(n: int, e: nat)
    requires e > 3 && Pow256(e - 1) <= n < Pow256(e)
    ensures 0x1_0000 <= ShiftRight(n, e - 3) < EXPONENT
  {
    SmallPowers();
    LeftTwice(1, 2, e - 3);
    LeftTwice(1, 3, e - 3);
    Adjoint(0x1_0000, n, e - 3);
    Adjoint(EXPONENT, n, e - 3);
  }

  lemma NegativeScaledDown(n: int, e: nat)
    requires e > 3 && Pow256(e - 1) <= -n < Pow256(e)
    ensures -EXPONENT <= ShiftRight(n, e - 3) <= -0x1_0000
  {
    var k := e - 3;
    SmallPowers();
    LeftTwice(1, 2, k);
    LeftTwice(1, 3, k);
    LeftNeg(EXPONENT, k);
    LeftNeg(0x1_0000, k);
    LeftAdd(-0x1_0000, 1, k);
    Adjoint(-EXPONENT, n, k);
    Adjoint(-0xffff, n, k);
  }

  /** (mantissa, exponent) is the normal form of n > 0: n lies in
      [mantissa, mantissa + 1) * 256^(exponent - 3) and the mantissa is at least 2^15. Both
      sides are scaled by 256^3 so that the exponent needs no sign. */
  ghost predicate Normal(n: int, mantissa: int, exponent: nat) {
    && 0x8000 <= mantissa < SIGN
    && ShiftLeft(mantissa, exponent) <= ShiftLeft(n, 3) < ShiftLeft(mantissa + 1, exponent)
  }

  /** The exponent and the mantissa after the sign-bit carry. */
  ghost function NormalExponent(n: nat): nat
    requires n > 0
  {
    if RawMantissa(n) < SIGN then ByteLen(n) else ByteLen(n) + 1
  }

  ghost function NormalMantissa(n: nat): nat
    requires n > 0
  {
    if RawMantissa(n) < SIGN then RawMantissa(n) else RawMantissa(n) / 256
  }

  lemma RawEnclosure(n: nat)
    requires n > 0
    ensures ShiftLeft(RawMantissa(n), ByteLen(n)) <= ShiftLeft(n, 3) < ShiftLeft(RawMantissa(n) + 1, ByteLen(n))
  {
    var e, m := ByteLen(n), RawMantissa(n);
    RawMantissaBound(n);
    if e <= 3 {
      LeftTwice(n, 3 - e, e);
      LeftOrder(m, m + 1, e);
    } else {
      LongEnclosure(n, m, e - 3);
    }
  }

  lemma LongEnclosure(n: int, m: int, k: nat)
    requires m == ShiftRight(n, k)
    ensures ShiftLeft(m, k + 3) <= ShiftLeft(n, 3) < ShiftLeft(m + 1, k + 3)
  {
    RightEnclosure(n, k);
    LeftTwice(m, k, 3);
    LeftTwice(m + 1, k, 3);
    LeftOrder(n, ShiftLeft(m, k), 3);
    LeftOrder(n, ShiftLeft(m + 1, k), 3);
  }

  /** Dividing the mantissa by 256 and incrementing the exponent keeps the enclosure. */
  lemma CarryEnclosure(m: nat, e: nat, x: int)
    requires ShiftLeft(m, e) <= x < ShiftLeft(m + 1, e)
    ensures ShiftLeft(m / 256, e + 1) <= x < ShiftLeft(m / 256 + 1, e + 1)
  {
    var q := m / 256;
    assert ShiftLeft(q, 1) == 256 * ShiftLeft(q, 0);
    assert ShiftLeft(q + 1, 1) == 256 * ShiftLeft(q + 1, 0);
    LeftTwice(q, 1, e);
    LeftTwice(q + 1, 1, e);
    LeftOrder(m, 256 * q, e);
    LeftOrder(256 * q + 256, m + 1, e);
  }

  /** The encoder normalises: every positive number gets its normal form, and the word holds
      the low eight bits of the exponent. */
  lemma EncodesNormalForm(n: nat)
    requires n > 0
    ensures Normal(n, NormalMantissa(n), NormalExponent(n))
    ensures BigToCompact(n) == NormalExponent(n) % 256 * EXPONENT + NormalMantissa(n)
  {
    RawMantissaBound(n);
    RawEnclosure(n);
    if RawMantissa(n) >= SIGN {
      CarryEnclosure(RawMantissa(n), ByteLen(n), ShiftLeft(n, 3));
    }
  }

  /** Normal forms order like the numbers they enclose, exponent first. */
  lemma NormalMonotone(a: int, m: int, e: nat, b: int, m': int, e': nat)
    requires a <= b && Normal(a, m, e) && Normal(b, m', e')
    ensures e < e' || (e == e' && m <= m')
  {
    LeftOrder(b, a, 3);
    if e > e' {
      LeftGrows(0x8000, e' + 1, e);
      LeftOrder(m, 0x8000, e);
      assert ShiftLeft(0x8000, 1) == 256 * ShiftLeft(0x8000, 0);
      LeftTwice(0x8000, 1, e');
      LeftOrder(SIGN, m' + 1, e');
    } else if e == e' {
      LeftOrder(m, m' + 1, e);
    }
  }

  lemma NormalUnique(n: nat, m: int, e: nat)
    requires n > 0 && Normal(n, m, e)
    ensures m == NormalMantissa(n) && e == NormalExponent(n)
  {
    EncodesNormalForm(n);
    NormalMonotone(n, m, e, n, NormalMantissa(n), NormalExponent(n));
    NormalMonotone(n, NormalMantissa(n), NormalExponent(n), n, m, e);
  }

  /** What a normal form decodes to: n itself up to exponent 3, then n with its low
      exponent - 3 bytes cleared. */
  lemma NormalDecodes(n: int, m: int, e: nat)
    requires Normal(n, m, e)
    ensures e <= 3 ==> m == ShiftLeft(n, 3 - e) && Magnitude(m, e) == n
    ensures e > 3 ==> m == ShiftRight(n, e - 3)
    ensures e > 3 ==> n - Pow256(e - 3) < Magnitude(m, e) <= n
  {
    if e <= 3 {
      var s := ShiftLeft(n, 3 - e);
      LeftTwice(n, 3 - e, e);
      LeftOrder(s, m, e);
      LeftOrder(s, m + 1, e);
      RightOfLeft(n, 3 - e);
    } else {
      var k := e - 3;
      LeftTwice(m, k, 3);
      LeftTwice(m + 1, k, 3);
      LeftOrder(n, ShiftLeft(m, k), 3);
      LeftOrder(n, ShiftLeft(m + 1, k), 3);
      RightUnique(n, m, k);
      RightEnclosure(n, k);
    }
  }

  /** The exponent fits in the word exactly below 2^2039. */
  lemma ExponentFits(n: nat, m: int, e: nat)
    requires Normal(n, m, e)
    ensures e <= 255 <==> n < Limit()
  {
    LimitScaled();
    LeftOrder(n, Limit(), 3);
    if e <= 255 {
      LeftGrows(SIGN, e, 255);
      LeftOrder(SIGN, m + 1, e);
    } else {
      LeftGrows(0x8000, 256, e);
      LeftOrder(m, 0x8000, e);
    }
  }

  lemma LimitScaled()
    ensures ShiftLeft(Limit(), 3) == ShiftLeft(0x8000, 256) == ShiftLeft(SIGN, 255)
  {
    assert ShiftLeft(Limit(), 3) == ShiftLeft(0x80, 257) by { LeftTwice(0x80, 254, 3); }
    SmallShifts();
    assert ShiftLeft(0x8000, 256) == ShiftLeft(0x80, 257) by { LeftTwice(0x80, 1, 256); }
    assert ShiftLeft(SIGN, 255) == ShiftLeft(0x80, 257) by { LeftTwice(0x80, 2, 255); }
  }

  lemma SmallShifts()
    ensures ShiftLeft(0x80, 1) == 0x8000 && ShiftLeft(0x80, 2) == SIGN && ShiftLeft(0x8000, 1) == SIGN
  {
    assert ShiftLeft(0x80, 1) == 256 * ShiftLeft(0x80, 0);
    assert ShiftLeft(0x80, 2) == 256 * ShiftLeft(0x80, 1);
    assert ShiftLeft(0x8000, 1) == 256 * ShiftLeft(0x8000, 0);
  }

  lemma Unpack(exponent: nat, mantissa: nat)
    requires exponent < 256 && mantissa < SIGN
    ensures CompactToBig(exponent * EXPONENT + mantissa) == Magnitude(mantissa, exponent)
    ensures CompactToBig(exponent * EXPONENT + SIGN + mantissa) == -Magnitude(mantissa, exponent)
  {
    UnpackFields(exponent, mantissa, exponent * EXPONENT + mantissa);
    UnpackFields(exponent, mantissa, exponent * EXPONENT + SIGN + mantissa);
  }

  lemma UnpackFields(exponent: nat, mantissa: nat, c: nat)
    requires mantissa < SIGN
    requires c == exponent * EXPONENT + mantissa || c == exponent * EXPONENT + SIGN + mantissa
    ensures c % SIGN == mantissa && c / EXPONENT == exponent
    ensures c / SIGN % 2 == if c == exponent * EXPONENT + mantissa then 0 else 1
    ensures c == exponent * EXPONENT + mantissa ==> c % EXPONENT == mantissa
  {
    var s := if c == exponent * EXPONENT + mantissa then 0 else 1;
    assert c == (2 * exponent + s) * SIGN + mantissa;
    assert c / SIGN == 2 * exponent + s;
  }

  /** Below the limit the two fields of an encoded number come back apart. */
  lemma DecodesPacked(n: nat)
    requires 0 < n < Limit()
    ensures BigToCompact(n) / EXPONENT == NormalExponent(n)
    ensures BigToCompact(n) % EXPONENT == NormalMantissa(n) < SIGN
    ensures CompactToBig(BigToCompact(n)) == Magnitude(NormalMantissa(n), NormalExponent(n))
  {
    var m, e := NormalMantissa(n), NormalExponent(n);
    assert 0x8000 <= m < SIGN && e < 256 && BigToCompact(n) == e * EXPONENT + m by {
      EncodesNormalForm(n);
      ExponentFits(n, m, e);
    }
    UnpackFields(e, m, BigToCompact(n));
    Unpack(e, m);
  }

  /** Whatever their mantissas, a word with a smaller exponent stands for less than a
      normalised one with exponent above 3. */
  lemma SmallerExponentIsSmaller(m': int, e': nat, m: int, e: nat)
    requires 0 <= m' < SIGN && e' < e && e > 3 && 0x8000 <= m
    ensures Magnitude(m', e') < Magnitude(m, e)
  {
    LeftOrder(m, 0x8000, e - 3);
    SmallShifts();
    LeftTwice(0x8000, 1, e - 4);
    if e' <= 3 {
      RightEnclosure(m', 3 - e');
      RightOfNat(m', 3 - e');
      LeftGrows(SIGN, 0, e - 4);
    } else {
      LeftGrows(SIGN, e' - 3, e - 4);
      LeftOrder(m', SIGN, e' - 3);
    }
  }

  lemma {:induction false} RightOfNat(m: int, k: nat)
    requires m >= 0
    ensures 0 <= ShiftRight(m, k) <= m
  {
    if k > 0 {
      RightOfNat(m, k - 1);
    }
  }

  lemma MagnitudeOfNat(m: int, e: nat)
    requires m >= 0
    ensures Magnitude(m, e) >= 0
  {
    if e <= 3 {
      RightOfNat(m, 3 - e);
    } else {
      LeftSign(m, e - 3);
    }
  }

  lemma BetterThan(n: nat, m': int, e': nat)
    requires 0 < n && 0 <= m' < SIGN && Magnitude(m', e') <= n
    ensures Magnitude(m', e') <= Magnitude(NormalMantissa(n), NormalExponent(n))
  {
    var m, e := NormalMantissa(n), NormalExponent(n);
    EncodesNormalForm(n);
    NormalDecodes(n, m, e);
    if e > 3 && e' < e {
      SmallerExponentIsSmaller(m', e', m, e);
    } else if e > 3 {
      var k := ShiftLeft(m', e' - e);
      LeftTwice(m', e' - e, e - 3);
      Adjoint(k, n, e - 3);
      LeftOrder(m, k, e - 3);
    }
  }

  /** Decoding an encoded target never raises it, and no other word comes closer from below. */
  lemma BestApproximation(n: nat, c: Uint32)
    requires n < Limit()
    ensures 0 <= CompactToBig(BigToCompact(n)) <= n
    ensures CompactToBig(c) <= n ==> CompactToBig(c) <= CompactToBig(BigToCompact(n))
  {
    if n > 0 {
      var m, e := NormalMantissa(n), NormalExponent(n);
      EncodesNormalForm(n);
      NormalDecodes(n, m, e);
      DecodesPacked(n);
      MagnitudeOfNat(m, e);
      if 0 < CompactToBig(c) <= n {
        MagnitudeOfNat(c % SIGN, c / EXPONENT);
        BetterThan(n, c % SIGN, c / EXPONENT);
      }
    } else {
      assert Magnitude(0, 0) == 0;
    }
  }

  /** The fields of an encoded target and the exact loss bound they give. */
  lemma LossBound(n: nat)
    requires 0 < n < Limit()
    ensures var c := BigToCompact(n); var e := c / EXPONENT;
            && 0x8000 <= c % EXPONENT <= 0x7f_ffff
            && (e <= 3 ==> CompactToBig(c) == n)
            && (e > 3 ==> n - Pow256(e - 3) < CompactToBig(c) <= n)
  {
    var m, e := NormalMantissa(n), NormalExponent(n);
    assert Normal(n, m, e) by { EncodesNormalForm(n); }
    DecodesPacked(n);
    NormalDecodes(n, m, e);
  }

  /** The encoding keeps the leading 15 bits of a positive target exactly when the target is
      below 2^2039: from there on the exponent wraps around. */
  lemma RelativeLossIff(n: nat)
    requires n > 0
    ensures 0x8000 * (n - CompactToBig(BigToCompact(n))) < n <==> n < Limit()
  {
    var m, e := NormalMantissa(n), NormalExponent(n);
    EncodesNormalForm(n);
    NormalDecodes(n, m, e);
    ExponentFits(n, m, e);
    if n < Limit() {
      DecodesPacked(n);
      if e > 3 {
        SmallLoss(n, m, e);
      }
    } else {
      WrappedExponent(n, m, e);
    }
  }

  lemma SmallLoss(n: int, m: int, e: nat)
    requires Normal(n, m, e) && e > 3
    ensures 0x8000 * Pow256(e - 3) <= n
  {
    NormalDecodes(n, m, e);
    LeftOrder(m, 0x8000, e - 3);
    ScaledUnit(0x8000, e - 3);
  }

  lemma {:induction false} ScaledUnit(a: int, k: nat)
    ensures ShiftLeft(a, k) == a * ShiftLeft(1, k)
  {
    if k > 0 {
      ScaledUnit(a, k - 1);
    }
  }

  lemma WrappedExponent(n: nat, m: int, e: nat)
    requires n > 0 && e > 255 && Normal(n, m, e)
    requires BigToCompact(n) == e % 256 * EXPONENT + m
    ensures CompactToBig(BigToCompact(n)) <= n / 256
  {
    Unpack(e % 256, m);
    SmallerExponentIsSmaller(m, e % 256, m, e - 1);
    NormalDecodes(n, m, e);
    assert Magnitude(m, e) == 256 * Magnitude(m, e - 1);
  }

  /** A decoded target keeps its normal form, so encoding it again gives the same word. */
  lemma ReencodePositive(n: nat)
    requires 0 < n < Limit()
    ensures CompactToBig(BigToCompact(n)) > 0
    ensures BigToCompact(CompactToBig(BigToCompact(n))) == BigToCompact(n)
  {
    var m, e := NormalMantissa(n), NormalExponent(n);
    var d := Magnitude(m, e);
    DecodesPacked(n);
    EncodesNormalForm(n);
    assert d > 0 && Normal(d, m, e) by { DecodedNormalForm(n, m, e); }
    NormalUnique(d, m, e);
    EncodesNormalForm(d);
  }

  lemma DecodedNormalForm(n: int, m: int, e: nat)
    requires n > 0 && Normal(n, m, e)
    ensures Magnitude(m, e) > 0 && Normal(Magnitude(m, e), m, e)
  {
    NormalDecodes(n, m, e);
    if e > 3 {
      OwnNormalForm(m, e);
    }
  }

  lemma OwnNormalForm(m: int, e: nat)
    requires 0x8000 <= m < SIGN && e > 3
    ensures ShiftLeft(m, e - 3) > 0 && Normal(ShiftLeft(m, e - 3), m, e)
  {
    LeftSign(m, e - 3);
    LeftTwice(m, e - 3, 3);
    LeftOrder(m, m + 1, e);
  }

  /** Larger targets get larger words, and equal words mean equal decoded targets. */
  lemma OrderEmbedding(a: nat, b: nat)
    requires a <= b < Limit()
    ensures BigToCompact(a) <= BigToCompact(b)
    ensures BigToCompact(a) == BigToCompact(b) <==>
            CompactToBig(BigToCompact(a)) == CompactToBig(BigToCompact(b))
  {
    if a > 0 {
      PackedOrder(a, b);
      ReencodePositive(a);
      ReencodePositive(b);
    } else if b > 0 {
      ReencodePositive(b);
      assert Magnitude(0, 0) == 0;
    }
  }

  lemma PackedOrder(a: nat, b: nat)
    requires 0 < a <= b < Limit()
    ensures BigToCompact(a) <= BigToCompact(b)
  {
    EncodesNormalForm(a);
    EncodesNormalForm(b);
    DecodesPacked(a);
    DecodesPacked(b);
    NormalMonotone(a, NormalMantissa(a), NormalExponent(a), b, NormalMantissa(b), NormalExponent(b));
  }

  lemma RightIsQuotient(m: nat, k: nat)
    ensures ShiftRight(m, k) == m / Pow256(k) >= 0
  {
    RightOfNat(m, k);
    RightEnclosure(m, k);
    ScaledUnit(ShiftRight(m, k), k);
    ScaledUnit(ShiftRight(m, k) + 1, k);
    DivUnique(m, Pow256(k), ShiftRight(m, k));
  }

  lemma LeftIsProduct(m: nat, k: nat)
    ensures ShiftLeft(m, k) == m * Pow256(k) >= 0
  {
    ScaledUnit(m, k);
    LeftSign(m, k);
  }

  /** What each of the 2^32 words stands for: its magnitude is the 23-bit mantissa times
      256^(exponent - 3), rounded down below exponent 3, and it is negative exactly when the sign
      bit is set and the magnitude is not zero. */
  lemma DecodesTo(c: Uint32)
    ensures var m, e := c % 0x80_0000, c / 0x100_0000; var v := CompactToBig(c);
            && (e >= 3 ==> Abs(v) == m * Pow256(e - 3))
            && (e < 3 ==> Abs(v) == m / Pow256(3 - e))
            && (v < 0 <==> c / 0x80_0000 % 2 == 1 && v != 0)
  {
    var m, e := c % SIGN, c / EXPONENT;
    if e <= 3 {
      RightIsQuotient(m, 3 - e);
    } else {
      LeftIsProduct(m, e - 3);
    }
    if e == 3 {
      SmallPowers();
    }
    assert Magnitude(m, e) >= 0;
  }

  /** The magnitudes that survive the encoding: below the limit, and with no bits below the
      three bytes the word keeps. */
  ghost predicate Fits(w: nat) {
    w == 0 || (w < Limit() && (NormalExponent(w) <= 3 || Cleared(w, NormalExponent(w) - 3)))
  }

  /** The low k bytes of w are zero. */
  ghost predicate Cleared(w: int, k: nat) {
    ShiftLeft(ShiftRight(w, k), k) == w
  }

  lemma ClearedMeans(w: int, q: int, k: nat)
    requires w == ShiftLeft(q, k)
    ensures Cleared(w, k) && ShiftRight(w, k) == q
  {
    RightOfLeft(q, k);
  }

  lemma FitsRaw(w: nat)
    requires w > 0 && Fits(w)
    ensures ByteLen(w) <= 3 || Cleared(w, ByteLen(w) - 3)
  {
    if ByteLen(w) > 3 && NormalExponent(w) != ByteLen(w) {
      var k := ByteLen(w) - 3;
      var q := ShiftRight(w, k + 1);
      LeftTwice(q, 1, k);
      ClearedMeans(w, ShiftLeft(q, 1), k);
    }
  }

  /** Encoding a negative number whose magnitude loses nothing sets the sign bit and nothing else. */
  lemma MirrorExact(w: int)
    requires w > 0
    requires ByteLen(w) <= 3 || Cleared(w, ByteLen(w) - 3)
    ensures BigToCompact(-w) == BigToCompact(w) + SIGN
  {
    if ByteLen(w) > 3 {
      var k := ByteLen(w) - 3;
      LeftNeg(ShiftRight(w, k), k);
      ClearedMeans(-w, -ShiftRight(w, k), k);
    }
    assert RawMantissa(-w) == RawMantissa(w);
    RawMantissaBound(w);
  }

  lemma PositiveExactIff(n: nat)
    requires n > 0
    ensures CompactToBig(BigToCompact(n)) == n <==> Fits(n)
  {
    var m, e := NormalMantissa(n), NormalExponent(n);
    EncodesNormalForm(n);
    NormalDecodes(n, m, e);
    if n < Limit() {
      DecodesPacked(n);
    } else {
      ExponentFits(n, m, e);
      WrappedExponent(n, m, e);
    }
  }

  lemma NegativeExact(w: int)
    requires w > 0 && Fits(w)
    ensures CompactToBig(BigToCompact(-w)) == -w
  {
    FitsRaw(w);
    MirrorExact(w);
    PositiveExactIff(w);
    DecodesPacked(w);
    SignFlips(BigToCompact(w), BigToCompact(-w));
  }

  lemma SignFlips(c: Uint32, d: Uint32)
    requires c % EXPONENT < SIGN && d == c + SIGN
    ensures CompactToBig(d) == -CompactToBig(c)
  {
    UnpackFields(c / EXPONENT, c % EXPONENT, c);
    UnpackFields(c / EXPONENT, c % EXPONENT, d);
  }

  lemma DecodedFits(c: Uint32)
    ensures Magnitude(c % SIGN, c / EXPONENT) >= 0
    ensures Fits(Abs(CompactToBig(c)))
  {
    var m, e := c % SIGN, c / EXPONENT;
    var v := Magnitude(m, e);
    MagnitudeOfNat(m, e);
    if v > 0 {
      DecodedBelowLimit(m, e);
      BetterThan(v, m, e);
      LosslessFits(v);
    }
  }

  lemma LosslessFits(v: nat)
    requires 0 < v < Limit() && v <= Magnitude(NormalMantissa(v), NormalExponent(v))
    ensures Fits(v)
  {
    EncodesNormalForm(v);
    NormalDecodes(v, NormalMantissa(v), NormalExponent(v));
  }

  lemma DecodedBelowLimit(m: int, e: nat)
    requires 0 <= m < SIGN && e < 256
    ensures Magnitude(m, e) < Limit()
  {
    SmallerExponentIsSmaller(m, e, 0x8000, 256);
    SmallShifts();
    LeftTwice(0x80, 1, 253);
  }

  /** Decoding any word, negative ones included, encoding the number and decoding again gives
      the same number. */
  lemma DecodeEncodeDecode(c: Uint32)
    ensures CompactToBig(BigToCompact(CompactToBig(c))) == CompactToBig(c)
  {
    DecodedFits(c);
    ExactIff(CompactToBig(c));
  }

  /** A number of either sign survives the encoding exactly when its magnitude fits. */
  lemma ExactIff(n: int)
    ensures CompactToBig(BigToCompact(n)) == n <==> Fits(Abs(n))
  {
    if n > 0 {
      PositiveExactIff(n);
    } else if n < 0 {
      if Fits(-n) {
        NegativeExact(-n);
      }
      DecodedFits(BigToCompact(n));
    } else {
      assert Magnitude(0, 0) == 0;
    }
  }

  lemma SmallNumbersExact(n: int)
    requires -SIGN < n < SIGN
    ensures CompactToBig(BigToCompact(n)) == n
  {
    if n != 0 {
      SmallFits(Abs(n));
    }
    ExactIff(n);
  }

  lemma SmallFits(w: nat)
    requires 0 < w < SIGN
    ensures Fits(w)
  {
    SmallPowers();
    ByteLenBounds(w);
    if ByteLen(w) > 3 {
      LeftGrows(1, 3, ByteLen(w) - 1);
    }
    SmallShifts();
    LeftGrows(0x80, 2, 254);
  }

  /** The words the encoder produces: zero, or a normalised mantissa without bits below the
      point. */
  ghost predicate Canonical(c: Uint32) {
    var m, e := c % SIGN, c / EXPONENT;
    c == 0 || (m >= 0x8000 && (e >= 3 || Cleared(m, 3 - e)))
  }

  /** Encoding a decoded word gives the word back exactly when it is canonical. */
  lemma CanonicalIff(c: Uint32)
    ensures BigToCompact(CompactToBig(c)) == c <==> Canonical(c)
  {
    var m, e := c % SIGN, c / EXPONENT;
    MagnitudeOfNat(m, e);
    if Magnitude(m, e) == 0 {
      ZeroWordsNotCanonical(m, e);
    } else {
      SignedReencode(c);
      NormalIffCanonical(m, e);
    }
  }

  /** The sign bit comes back; the other fields come back when they are a normal form. */
  lemma SignedReencode(c: Uint32)
    requires Magnitude(c % SIGN, c / EXPONENT) > 0
    ensures BigToCompact(CompactToBig(c)) == c <==> Normal(Magnitude(c % SIGN, c / EXPONENT), c % SIGN, c / EXPONENT)
  {
    var m, e := c % SIGN, c / EXPONENT;
    var v := Magnitude(m, e);
    assert BigToCompact(-v) == BigToCompact(v) + SIGN by {
      DecodedFits(c);
      FitsRaw(v);
      MirrorExact(v);
    }
    DecodedBelowLimit(m, e);
    WordFields(c);
    PackedIff(v, m, e);
  }

  lemma PackedIff(v: nat, m: int, e: nat)
    requires 0 < v < Limit() && 0 <= m < SIGN && e < 256
    ensures BigToCompact(v) == e * EXPONENT + m <==> Normal(v, m, e)
  {
    EncodesNormalForm(v);
    DecodesPacked(v);
    if Normal(v, m, e) {
      NormalUnique(v, m, e);
    } else {
      UnpackFields(e, m, e * EXPONENT + m);
    }
  }

  lemma WordFields(c: Uint32)
    ensures c == c / EXPONENT * EXPONENT + c / SIGN % 2 * SIGN + c % SIGN
  {
  }

  lemma ZeroWordsNotCanonical(m: int, e: nat)
    requires Magnitude(m, e) == 0
    ensures m < 0x8000 || (e < 3 && !Cleared(m, 3 - e))
  {
    if e <= 3 {
      LeftSign(0, 3 - e);
    } else {
      LeftSign(m, e - 3);
    }
  }

  lemma NormalIffCanonical(m: int, e: nat)
    requires 0 <= m < SIGN && Magnitude(m, e) > 0
    ensures Normal(Magnitude(m, e), m, e) <==> m >= 0x8000 && (e >= 3 || Cleared(m, 3 - e))
  {
    if m >= 0x8000 {
      if e > 3 {
        OwnNormalForm(m, e);
      } else {
        var v := Magnitude(m, e);
        LeftTwice(v, 3 - e, e);
        LeftOrder(m, m + 1, e);
        if Normal(v, m, e) {
          NormalDecodes(v, m, e);
        }
      }
    }
  }

  /** The magnitude that the mantissa of a negative number -w stands for. */
  function RoundedUp(w: int): int
    requires w > 0
  {
    if ByteLen(w) <= 3 then w else ShiftLeft(RawMantissa(-w), ByteLen(w) - 3)
  }

  lemma RawUnfolds(w: int)
    requires w > 0
    ensures RawMantissa(-w) == Abs(if ByteLen(w) <= 3 then ShiftLeft(w, 3 - ByteLen(w)) else ShiftRight(-w, ByteLen(w) - 3))
  {
    assert Abs(-w) == w;
  }

  lemma RawOfShort(w: int)
    requires w > 0 && ByteLen(w) <= 3
    ensures RawMantissa(-w) < EXPONENT
  {
    RawUnfolds(w);
    ByteLenBounds(w);
    ScaledUp(w, ByteLen(w));
  }

  lemma RawOfLong(w: int)
    requires w > 0 && ByteLen(w) > 3
    ensures RawMantissa(-w) == -ShiftRight(-w, ByteLen(w) - 3) <= EXPONENT
  {
    RawUnfolds(w);
    ByteLenBounds(w);
    NegativeScaledDown(-w, ByteLen(w));
  }

  lemma CeilingTight(w: int, m: int, k: nat)
    requires m == -ShiftRight(-w, k)
    ensures w <= ShiftLeft(m, k) < w + Pow256(k)
  {
    RightEnclosure(-w, k);
    LeftNeg(m, k);
  }

  /** The arithmetic shift rounds it up, by less than the lowest byte kept. */
  lemma RoundedUpTight(w: int, k: nat)
    requires w > 0 && ByteLen(w) == k + 3 && k > 0
    ensures w <= RoundedUp(w) == ShiftLeft(RawMantissa(-w), k) < w + Pow256(k)
  {
    var m := RawMantissa(-w);
    assert m == -ShiftRight(-w, k) by { RawOfLong(w); }
    CeilingTight(w, m, k);
  }

  /** Shifted up, the largest three-byte mantissa. */
  lemma LargestMantissa(e: nat)
    requires e > 3
    ensures ShiftLeft(EXPONENT - 1, e - 3) == Pow256(e) - Pow256(e - 3)
  {
    SmallPowers();
    LeftTwice(1, 3, e - 3);
    LeftAdd(EXPONENT, -1, e - 3);
    LeftNeg(1, e - 3);
  }

  lemma RightBelow(w: int, c: int, k: nat)
    ensures ShiftRight(-w, k) < -c <==> w > ShiftLeft(c, k)
  {
    Adjoint(-c, -w, k);
    LeftNeg(c, k);
  }

  /** Rounding up overflows the mantissa exactly for the magnitudes of more than three bytes that
      lie above the largest three-byte mantissa. */
  lemma RoundingOverflowsIff(w: int)
    requires w > 0
    ensures RawMantissa(-w) == EXPONENT <==> ByteLen(w) > 3 && w > Pow256(ByteLen(w)) - Pow256(ByteLen(w) - 3)
  {
    var e := ByteLen(w);
    if e > 3 {
      RawOfLong(w);
      RightBelow(w, EXPONENT - 1, e - 3);
      LargestMantissa(e);
    } else {
      RawOfShort(w);
    }
  }

  /** Then the carry lands in the exponent, and the number decodes to zero. */
  lemma OverflowDecodesToZero(w: int)
    requires w > 0 && RawMantissa(-w) == EXPONENT
    ensures CompactToBig(BigToCompact(-w)) == 0
  {
    var high := ByteLen(w) % 256;
    var h := if high % 2 == 1 then high else high + 1;
    var c := BigToCompact(-w);
    assert Abs(-w) == w && c == h * EXPONENT + SIGN;
    UnpackFields(h, 0, c);
    ZeroMagnitude(h);
  }

  lemma ZeroMagnitude(e: nat)
    ensures Magnitude(0, e) == 0
  {
    if e <= 3 {
      RightOfNat(0, 3 - e);
    } else {
      LeftSign(0, e - 3);
    }
  }

  /** Every other negative number is encoded as the negative of its rounded magnitude. */
  lemma NegativeIsRoundedUp(w: int)
    requires w > 0 && RawMantissa(-w) < EXPONENT
    ensures RoundedUp(w) > 0 && BigToCompact(-w) == BigToCompact(RoundedUp(w)) + SIGN
  {
    if ByteLen(w) > 3 {
      SameFields(w);
    } else {
      MirrorExact(w);
    }
  }

  lemma SameFields(w: int)
    requires w > 0 && ByteLen(w) > 3 && RawMantissa(-w) < EXPONENT
    ensures RoundedUp(w) > 0 && BigToCompact(-w) == BigToCompact(RoundedUp(w)) + SIGN
  {
    var v := RoundedUp(w);
    SameByteLen(w);
    RoundedUpTight(w, ByteLen(w) - 3);
    RightOfLeft(RawMantissa(-w), ByteLen(w) - 3);
    RawMantissaBound(v);
    assert RawMantissa(v) == RawMantissa(-w) && Abs(-w) == w && Abs(v) == v;
  }

  lemma SameByteLen(w: int)
    requires w > 0 && ByteLen(w) > 3 && RawMantissa(-w) < EXPONENT
    ensures RoundedUp(w) > 0 && ByteLen(RoundedUp(w)) == ByteLen(w)
  {
    var e := ByteLen(w);
    RoundedUpTight(w, ByteLen(w) - 3);
    ByteLenBounds(w);
    SmallPowers();
    LeftTwice(1, 3, e - 3);
    LeftOrder(RawMantissa(-w), EXPONENT, e - 3);
    ByteLenUnique(RoundedUp(w), e);
  }

  lemma ByteLenUnique(v: nat, e: nat)
    requires e > 0 && Pow256(e - 1) <= v < Pow256(e) && v > 0
    ensures ByteLen(v) == e
  {
    ByteLenBounds(v);
    if ByteLen(v) < e {
      LeftGrows(1, ByteLen(v), e - 1);
    } else if ByteLen(v) > e {
      LeftGrows(1, e, ByteLen(v) - 1);
    }
  }

  /** An input on which rounding a negative number up overflows the mantissa: the carry
      lands in the exponent and the number decodes to zero. */
  lemma NegativeRoundingOverflows()
    ensures BigToCompact(-0xffff_ff01) == 0x0580_0000
    ensures CompactToBig(BigToCompact(-0xffff_ff01)) == 0
  {
    assert ByteLen(0xffff_ff01) == 4 by {
      assert ByteLen(0xffff_ff01) == 1 + ByteLen(0xff_ffff);
      assert ByteLen(0xff_ffff) == 1 + ByteLen(0xffff);
      assert ByteLen(0xffff) == 1 + ByteLen(0xff);
    }
    assert ShiftRight(-0xffff_ff01, 1) == ShiftRight(-0xffff_ff01, 0) / 256 == -EXPONENT;
    assert RawMantissa(-0xffff_ff01) == EXPONENT;
    LeftSign(0, 2);
    assert Magnitude(0, 5) == 0;
  }
}
