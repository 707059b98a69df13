/**
 * Arithmetic in the finite field GF(2^8) that the QR-code encoder uses for
 * the coefficients of its polynomials: bytes, with addition and subtraction
 * both the bitwise exclusive or, and multiplication of polynomials over GF(2)
 * reduced modulo x^8 + x^4 + x^3 + x^2 + 1 (0x11D, the field polynomial of
 * QR codes, with 2 as a generator of the multiplicative group).
 *
 * Multiplication is the shift-and-add ("Russian peasant") recursion over the
 * bits of the second factor. The field laws the encoder relies on
 * (distributivity, commutativity, associativity, identities, inverses) are
 * proved from that definition. The proofs go through small "step" lemmas whose
 * parameters name the sub-terms they talk about, which keeps every proof
 * obligation small for the bit-vector solver.
 */
module GF256 {
  type Byte = bv8

  /** Field addition: the coefficients of the two polynomials over GF(2) are added bitwise. */
  function Add(a: Byte, b: Byte): Byte
  {
    a ^ b
  }

  /** Field subtraction; in characteristic 2 it is the same operation as addition. */
  function Sub(a: Byte, b: Byte): (c: Byte)
    ensures c == Add(a, b)
  {
    a ^ b
  }

  /** Multiplication by x (the field element 2), reduced by 0x11D. */
  function XTime(a: Byte): Byte
  {
    (a << 1) ^ ((0 - (a >> 7)) & 0x1D)
  }

  /** All ones when the low bit of y is set, otherwise zero. */
  function LowMask(y: Byte): Byte
  {
    if y & 1 == 0 then 0 else 0xFF
  }

  /**
   * x times the low n bits of y: take x when the low bit of y is set, then
   * continue with x * 2 and the remaining bits of y.
   */
  function Peasant(x: Byte, y: Byte, n: nat): Byte
    decreases n, y
  {
    if n == 0 then 0 else (x & LowMask(y)) ^ Peasant(XTime(x), y >> 1, n - 1)
  }

  /** Field multiplication. */
  function Mul(a: Byte, b: Byte): Byte
  {
    Peasant(a, b, 8)
  }

  /** a raised to the power e, with a^0 == 1. */
  function Power(a: Byte, e: nat): Byte
    decreases e
  {
    if e == 0 then 1 else Mul(a, Power(a, e - 1))
  }

  /** 2^k, by repeated doubling. */
  function Exp(k: nat): Byte
    decreases k
  {
    if k == 0 then 1 else XTime(Exp(k - 1))
  }

  /** The first c in [c0, 255] with b * c == 1, or 0 when there is none. */
  function InvSearch(b: Byte, c0: nat): Byte
    requires c0 <= 255
    decreases 255 - c0, b
  {
    if Mul(b, c0 as Byte) == 1 then c0 as Byte
    else if c0 == 255 then 0
    else InvSearch(b, c0 + 1)
  }

  /** The multiplicative inverse: the byte c with b * c == 1 (0 for b == 0, which has none). */
  function Inv(b: Byte): Byte
  {
    InvSearch(b, 0)
  }

  /** Field division a / b, defined as a * b^-1 (meaningful for b != 0). */
  function Div(a: Byte, b: Byte): Byte
  {
    Mul(a, Inv(b))
  }

  // ---------------------------------------------------------------------
  // Bit-level facts, each about at most three bytes and proved by the solver.

  lemma XTimeLinear(a: Byte, b: Byte)
    ensures XTime(a ^ b) == XTime(a) ^ XTime(b)
  {
  }

  lemma XTimeMask(x: Byte, y: Byte)
    ensures XTime(x) & LowMask(y) == XTime(x & LowMask(y))
  {
  }

  lemma LowMaskXor(x: Byte, y: Byte, z: Byte)
    ensures x & LowMask(y ^ z) == (x & LowMask(y)) ^ (x & LowMask(z))
  {
  }

  lemma HalfXor(y: Byte, z: Byte)
    ensures (y ^ z) >> 1 == (y >> 1) ^ (z >> 1)
  {
  }

  lemma XorShuffle(a: Byte, b: Byte, c: Byte, d: Byte)
    ensures (a ^ b) ^ (c ^ d) == (a ^ c) ^ (b ^ d)
  {
  }

  lemma AndXor(x: Byte, w: Byte, l: Byte)
    ensures (x ^ w) & l == (x & l) ^ (w & l)
  {
  }

  lemma PeasantUnfold(x: Byte, y: Byte, n: nat)
    requires n > 0
    ensures Peasant(x, y, n) == (x & LowMask(y)) ^ Peasant(XTime(x), y >> 1, n - 1)
  {
  }

  lemma PeasantCongruence(p: Byte, q: Byte, b: Byte, m: nat)
    requires p == q
    ensures Peasant(p, b, m) == Peasant(q, b, m)
  {
  }

  // ---------------------------------------------------------------------
  // Linearity in the second factor.

  lemma PeasantLinearYStep(x: Byte, y: Byte, z: Byte, n: nat)
    requires n > 0
    requires Peasant(XTime(x), (y >> 1) ^ (z >> 1), n - 1)
          == Peasant(XTime(x), y >> 1, n - 1) ^ Peasant(XTime(x), z >> 1, n - 1)
    ensures Peasant(x, y ^ z, n) == Peasant(x, y, n) ^ Peasant(x, z, n)
  {
  }

  lemma {:induction false} PeasantLinearY(x: Byte, n: nat)
    ensures forall y: Byte, z: Byte :: Peasant(x, y ^ z, n) == Peasant(x, y, n) ^ Peasant(x, z, n)
    decreases n
  {
    if n > 0 {
      PeasantLinearY(XTime(x), n - 1);
      forall y: Byte, z: Byte ensures Peasant(x, y ^ z, n) == Peasant(x, y, n) ^ Peasant(x, z, n) {
        PeasantLinearYStep(x, y, z, n);
      }
    }
  }

  // ---------------------------------------------------------------------
  // Linearity in the first factor.

  lemma PeasantLinearXStep(x: Byte, w: Byte, y: Byte, n: nat)
    requires n > 0
    requires Peasant(XTime(x) ^ XTime(w), y >> 1, n - 1)
          == Peasant(XTime(x), y >> 1, n - 1) ^ Peasant(XTime(w), y >> 1, n - 1)
    ensures Peasant(x ^ w, y, n) == Peasant(x, y, n) ^ Peasant(w, y, n)
  {
    XTimeLinear(x, w);
  }

  lemma {:induction false} PeasantLinearX(y: Byte, n: nat)
    ensures forall x: Byte, w: Byte :: Peasant(x ^ w, y, n) == Peasant(x, y, n) ^ Peasant(w, y, n)
    decreases n
  {
    if n > 0 {
      PeasantLinearX(y >> 1, n - 1);
      forall x: Byte, w: Byte ensures Peasant(x ^ w, y, n) == Peasant(x, y, n) ^ Peasant(w, y, n) {
        PeasantLinearXStep(x, w, y, n);
      }
    }
  }

  lemma PeasantLinearXAt(x: Byte, w: Byte, y: Byte, n: nat)
    ensures Peasant(x ^ w, y, n) == Peasant(x, y, n) ^ Peasant(w, y, n)
  {
    PeasantLinearX(y, n);
  }

  // ---------------------------------------------------------------------
  // Doubling the first factor doubles the product.

  lemma PeasantXTimeStep(x: Byte, y: Byte, n: nat)
    requires n > 0
    requires Peasant(XTime(XTime(x)), y >> 1, n - 1) == XTime(Peasant(XTime(x), y >> 1, n - 1))
    ensures Peasant(XTime(x), y, n) == XTime(Peasant(x, y, n))
  {
    XTimeStepAlgebra(x, y, Peasant(XTime(x), y >> 1, n - 1), Peasant(XTime(XTime(x)), y >> 1, n - 1));
  }

  /** The algebra of one doubling step, with the products below it as plain bytes. */
  lemma XTimeStepAlgebra(x: Byte, y: Byte, p: Byte, q: Byte)
    requires q == XTime(p)
    ensures (XTime(x) & LowMask(y)) ^ q == XTime((x & LowMask(y)) ^ p)
  {
    XTimeMask(x, y);
    XTimeLinear(x & LowMask(y), p);
  }

  lemma {:induction false} PeasantXTime(y: Byte, n: nat)
    ensures forall x: Byte :: Peasant(XTime(x), y, n) == XTime(Peasant(x, y, n))
    decreases n
  {
    if n > 0 {
      PeasantXTime(y >> 1, n - 1);
      forall x: Byte ensures Peasant(XTime(x), y, n) == XTime(Peasant(x, y, n)) {
        PeasantXTimeStep(x, y, n);
      }
    }
  }

  lemma PeasantXTimeAt(x: Byte, y: Byte, n: nat)
    ensures Peasant(XTime(x), y, n) == XTime(Peasant(x, y, n))
  {
    PeasantXTime(y, n);
  }

  // ---------------------------------------------------------------------
  // Zero and one.

  lemma {:induction false} PeasantZero(y: Byte, n: nat)
    ensures Peasant(0, y, n) == 0
    decreases n
  {
    if n > 0 {
      assert XTime(0) == 0;
      PeasantZero(y >> 1, n - 1);
    }
  }

  lemma {:induction false} PeasantByZero(x: Byte, n: nat)
    ensures Peasant(x, 0, n) == 0
    decreases n
  {
    if n > 0 {
      assert LowMask(0) == 0;
      PeasantByZero(XTime(x), n - 1);
    }
  }

  /** Zero annihilates on both sides. */
  lemma MulZero(a: Byte)
    ensures Mul(0, a) == 0 && Mul(a, 0) == 0
  {
    PeasantZero(a, 8);
    PeasantByZero(a, 8);
  }

  /** One is a right identity. */
  lemma MulOneRight(a: Byte)
    ensures Mul(a, 1) == a
  {
    PeasantUnfold(a, 1, 8);
    PeasantByZero(XTime(a), 7);
  }

  lemma PeasantMask(x: Byte, y: Byte, b: Byte, m: nat, l: Byte)
    requires l == LowMask(y)
    ensures Peasant(x & l, b, m) == Peasant(x, b, m) & l
  {
    if l == 0 {
      PeasantCongruence(x & l, 0, b, m);
      PeasantZero(b, m);
    } else {
      assert x & l == x;
    }
  }

  // ---------------------------------------------------------------------
  // (x * y) * b == (x * b) * y, by induction over the bits of y.

  lemma PeasantSplit(x: Byte, y: Byte, b: Byte, n: nat, m: nat, u: Byte, v: Byte)
    requires n > 0 && u == x & LowMask(y) && v == Peasant(XTime(x), y >> 1, n - 1)
    ensures Peasant(Peasant(x, y, n), b, m) == Peasant(u, b, m) ^ Peasant(v, b, m)
  {
    PeasantUnfold(x, y, n);
    PeasantCongruence(Peasant(x, y, n), u ^ v, b, m);
    PeasantLinearXAt(u, v, b, m);
  }

  lemma PeasantSwapLeft(x: Byte, y: Byte, b: Byte, n: nat, m: nat, l: Byte, u: Byte, v: Byte, g: Byte)
    requires n > 0 && l == LowMask(y) && u == x & l && v == Peasant(XTime(x), y >> 1, n - 1) && g == Peasant(x, b, m)
    ensures Peasant(Peasant(x, y, n), b, m) == (g & l) ^ Peasant(v, b, m)
  {
    PeasantSplit(x, y, b, n, m, u, v);
    PeasantMask(x, y, b, m, l);
  }

  lemma PeasantSwapRight(x: Byte, y: Byte, b: Byte, n: nat, m: nat, g: Byte)
    requires n > 0 && g == Peasant(x, b, m)
    ensures Peasant(g, y, n) == (g & LowMask(y)) ^ Peasant(Peasant(XTime(x), b, m), y >> 1, n - 1)
  {
    PeasantUnfold(g, y, n);
    PeasantXTimeAt(x, b, m);
  }

  lemma PeasantSwapStep(x: Byte, y: Byte, b: Byte, n: nat, m: nat)
    requires n > 0
    requires Peasant(Peasant(XTime(x), y >> 1, n - 1), b, m) == Peasant(Peasant(XTime(x), b, m), y >> 1, n - 1)
    ensures Peasant(Peasant(x, y, n), b, m) == Peasant(Peasant(x, b, m), y, n)
  {
    PeasantSwapLeft(x, y, b, n, m, LowMask(y), x & LowMask(y), Peasant(XTime(x), y >> 1, n - 1), Peasant(x, b, m));
    PeasantSwapRight(x, y, b, n, m, Peasant(x, b, m));
  }

  lemma {:induction false} PeasantSwap(y: Byte, n: nat, m: nat)
    ensures forall x: Byte, b: Byte :: Peasant(Peasant(x, y, n), b, m) == Peasant(Peasant(x, b, m), y, n)
    decreases n
  {
    if n > 0 {
      PeasantSwap(y >> 1, n - 1, m);
      forall x: Byte, b: Byte ensures Peasant(Peasant(x, y, n), b, m) == Peasant(Peasant(x, b, m), y, n) {
        PeasantSwapStep(x, y, b, n, m);
      }
    } else {
      forall x: Byte, b: Byte ensures Peasant(Peasant(x, y, n), b, m) == Peasant(Peasant(x, b, m), y, n) {
        PeasantZero(b, m);
      }
    }
  }

  // ---------------------------------------------------------------------
  // The field laws for Mul.

  /** Multiplication distributes over addition in its left factor. */
  lemma DistL(x: Byte, w: Byte, b: Byte)
    ensures Mul(Add(x, w), b) == Add(Mul(x, b), Mul(w, b))
  {
    PeasantLinearX(b, 8);
  }

  /** Multiplication distributes over addition in its right factor. */
  lemma DistR(a: Byte, y: Byte, z: Byte)
    ensures Mul(a, Add(y, z)) == Add(Mul(a, y), Mul(a, z))
  {
    PeasantLinearY(a, 8);
  }

  /** (x * y) * b == (x * b) * y */
  lemma MulSwap(x: Byte, y: Byte, b: Byte)
    ensures Mul(Mul(x, y), b) == Mul(Mul(x, b), y)
  {
    PeasantSwap(y, 8, 8);
  }

  // ---------------------------------------------------------------------
  // One.

  /** The low n bits of a byte, as a mask. */
  function LowBits(n: nat): Byte
    requires n <= 8
  {
    match n
    case 0 => 0x00
    case 1 => 0x01
    case 2 => 0x03
    case 3 => 0x07
    case 4 => 0x0F
    case 5 => 0x1F
    case 6 => 0x3F
    case 7 => 0x7F
    case _ => 0xFF
  }

  lemma OneStep(a: Byte, n: nat, p: Byte)
    requires 1 <= n <= 8 && p == (a >> 1) & LowBits(n - 1)
    ensures (1 & LowMask(a)) ^ XTime(p) == a & LowBits(n)
  {
  }

  lemma PeasantOneUnfold(a: Byte, n: nat)
    requires n > 0
    ensures Peasant(1, a, n) == (1 & LowMask(a)) ^ XTime(Peasant(1, a >> 1, n - 1))
  {
    PeasantUnfold(1, a, n);
    PeasantXTimeAt(1, a >> 1, n - 1);
  }

  /** Multiplying 1 by the low n bits of a gives those bits back. */
  lemma {:induction false} PeasantOne(a: Byte, n: nat)
    requires n <= 8
    ensures Peasant(1, a, n) == a & LowBits(n)
    decreases n
  {
    if n > 0 {
      PeasantOne(a >> 1, n - 1);
      PeasantOneUnfold(a, n);
      OneStep(a, n, Peasant(1, a >> 1, n - 1));
    }
  }

  /** One is a left identity. */
  lemma MulOneLeft(a: Byte)
    ensures Mul(1, a) == a
  {
    PeasantOne(a, 8);
  }

  /** Multiplication is commutative. */
  lemma MulComm(a: Byte, b: Byte)
    ensures Mul(a, b) == Mul(b, a)
  {
    MulOneLeft(a);
    MulOneLeft(b);
    MulSwap(1, a, b);
  }

  /** Multiplication is associative. */
  lemma MulAssoc(a: Byte, b: Byte, c: Byte)
    ensures Mul(a, Mul(b, c)) == Mul(Mul(a, b), c)
  {
    MulComm(a, Mul(b, c));
    MulSwap(b, c, a);
    MulComm(b, a);
  }

  /** Multiplying by 2 is doubling. */
  lemma MulTwo(x: Byte)
    ensures Mul(2, x) == XTime(x)
  {
    assert XTime(1) == 2;
    PeasantXTimeAt(1, x, 8);
    MulOneLeft(x);
  }

  // ---------------------------------------------------------------------
  // The powers of 2.

  /** Power(2, k) is the k-th doubling of 1. */
  lemma {:induction false} PowerTwo(k: nat)
    ensures Power(2, k) == Exp(k)
    decreases k
  {
    if k > 0 {
      PowerTwo(k - 1);
      MulTwo(Power(2, k - 1));
    }
  }

  /** 2^i * 2^j == 2^(i + j). */
  lemma {:induction false} ExpAdd(i: nat, j: nat)
    ensures Mul(Exp(i), Exp(j)) == Exp(i + j)
    decreases i
  {
    if i == 0 {
      MulOneLeft(Exp(j));
    } else {
      ExpAdd(i - 1, j);
      PeasantXTimeAt(Exp(i - 1), Exp(j), 8);
    }
  }

  // The tables below list every power of 2 and, for every non-zero byte, the
  // power of 2 that equals it. Together they prove that 2 generates the
  // multiplicative group of GF(2^8) (ExpOnto), so every non-zero byte has an
  // inverse (InverseExists). The solver cannot afford to enumerate 255 cases
  // in a single proof, so the facts are given as literal tables, split into
  // blocks of 64 powers and 32 bytes, each block small enough to check on
  // its own.

  /** The powers 2^0 .. 2^63. */
  lemma ExpValues0()
    ensures Exp(0) == 0x01 && Exp(1) == 0x02 && Exp(2) == 0x04 && Exp(3) == 0x08 &&
      Exp(4) == 0x10 && Exp(5) == 0x20 && Exp(6) == 0x40 && Exp(7) == 0x80 &&
      Exp(8) == 0x1D && Exp(9) == 0x3A && Exp(10) == 0x74 && Exp(11) == 0xE8 &&
      Exp(12) == 0xCD && Exp(13) == 0x87 && Exp(14) == 0x13 && Exp(15) == 0x26 &&
      Exp(16) == 0x4C && Exp(17) == 0x98 && Exp(18) == 0x2D && Exp(19) == 0x5A &&
      Exp(20) == 0xB4 && Exp(21) == 0x75 && Exp(22) == 0xEA && Exp(23) == 0xC9 &&
      Exp(24) == 0x8F && Exp(25) == 0x03 && Exp(26) == 0x06 && Exp(27) == 0x0C &&
      Exp(28) == 0x18 && Exp(29) == 0x30 && Exp(30) == 0x60 && Exp(31) == 0xC0 &&
      Exp(32) == 0x9D && Exp(33) == 0x27 && Exp(34) == 0x4E && Exp(35) == 0x9C &&
      Exp(36) == 0x25 && Exp(37) == 0x4A && Exp(38) == 0x94 && Exp(39) == 0x35 &&
      Exp(40) == 0x6A && Exp(41) == 0xD4 && Exp(42) == 0xB5 && Exp(43) == 0x77 &&
      Exp(44) == 0xEE && Exp(45) == 0xC1 && Exp(46) == 0x9F && Exp(47) == 0x23 &&
      Exp(48) == 0x46 && Exp(49) == 0x8C && Exp(50) == 0x05 && Exp(51) == 0x0A &&
      Exp(52) == 0x14 && Exp(53) == 0x28 && Exp(54) == 0x50 && Exp(55) == 0xA0 &&
      Exp(56) == 0x5D && Exp(57) == 0xBA && Exp(58) == 0x69 && Exp(59) == 0xD2 &&
      Exp(60) == 0xB9 && Exp(61) == 0x6F && Exp(62) == 0xDE && Exp(63) == 0xA1
  {
    assert Exp(0) == 0x01;
    assert Exp(1) == 0x02;
    assert Exp(2) == 0x04;
    assert Exp(3) == 0x08;
    assert Exp(4) == 0x10;
    assert Exp(5) == 0x20;
    assert Exp(6) == 0x40;
    assert Exp(7) == 0x80;
    assert Exp(8) == 0x1D;
    assert Exp(9) == 0x3A;
    assert Exp(10) == 0x74;
    assert Exp(11) == 0xE8;
    assert Exp(12) == 0xCD;
    assert Exp(13) == 0x87;
    assert Exp(14) == 0x13;
    assert Exp(15) == 0x26;
    assert Exp(16) == 0x4C;
    assert Exp(17) == 0x98;
    assert Exp(18) == 0x2D;
    assert Exp(19) == 0x5A;
    assert Exp(20) == 0xB4;
    assert Exp(21) == 0x75;
    assert Exp(22) == 0xEA;
    assert Exp(23) == 0xC9;
    assert Exp(24) == 0x8F;
    assert Exp(25) == 0x03;
    assert Exp(26) == 0x06;
    assert Exp(27) == 0x0C;
    assert Exp(28) == 0x18;
    assert Exp(29) == 0x30;
    assert Exp(30) == 0x60;
    assert Exp(31) == 0xC0;
    assert Exp(32) == 0x9D;
    assert Exp(33) == 0x27;
    assert Exp(34) == 0x4E;
    assert Exp(35) == 0x9C;
    assert Exp(36) == 0x25;
    assert Exp(37) == 0x4A;
    assert Exp(38) == 0x94;
    assert Exp(39) == 0x35;
    assert Exp(40) == 0x6A;
    assert Exp(41) == 0xD4;
    assert Exp(42) == 0xB5;
    assert Exp(43) == 0x77;
    assert Exp(44) == 0xEE;
    assert Exp(45) == 0xC1;
    assert Exp(46) == 0x9F;
    assert Exp(47) == 0x23;
    assert Exp(48) == 0x46;
    assert Exp(49) == 0x8C;
    assert Exp(50) == 0x05;
    assert Exp(51) == 0x0A;
    assert Exp(52) == 0x14;
    assert Exp(53) == 0x28;
    assert Exp(54) == 0x50;
    assert Exp(55) == 0xA0;
    assert Exp(56) == 0x5D;
    assert Exp(57) == 0xBA;
    assert Exp(58) == 0x69;
    assert Exp(59) == 0xD2;
    assert Exp(60) == 0xB9;
    assert Exp(61) == 0x6F;
    assert Exp(62) == 0xDE;
    assert Exp(63) == 0xA1;
  }

  /** The powers 2^64 .. 2^127. */
  lemma ExpValues1()
    ensures Exp(64) == 0x5F && Exp(65) == 0xBE && Exp(66) == 0x61 && Exp(67) == 0xC2 &&
      Exp(68) == 0x99 && Exp(69) == 0x2F && Exp(70) == 0x5E && Exp(71) == 0xBC &&
      Exp(72) == 0x65 && Exp(73) == 0xCA && Exp(74) == 0x89 && Exp(75) == 0x0F &&
      Exp(76) == 0x1E && Exp(77) == 0x3C && Exp(78) == 0x78 && Exp(79) == 0xF0 &&
      Exp(80) == 0xFD && Exp(81) == 0xE7 && Exp(82) == 0xD3 && Exp(83) == 0xBB &&
      Exp(84) == 0x6B && Exp(85) == 0xD6 && Exp(86) == 0xB1 && Exp(87) == 0x7F &&
      Exp(88) == 0xFE && Exp(89) == 0xE1 && Exp(90) == 0xDF && Exp(91) == 0xA3 &&
      Exp(92) == 0x5B && Exp(93) == 0xB6 && Exp(94) == 0x71 && Exp(95) == 0xE2 &&
      Exp(96) == 0xD9 && Exp(97) == 0xAF && Exp(98) == 0x43 && Exp(99) == 0x86 &&
      Exp(100) == 0x11 && Exp(101) == 0x22 && Exp(102) == 0x44 && Exp(103) == 0x88 &&
      Exp(104) == 0x0D && Exp(105) == 0x1A && Exp(106) == 0x34 && Exp(107) == 0x68 &&
      Exp(108) == 0xD0 && Exp(109) == 0xBD && Exp(110) == 0x67 && Exp(111) == 0xCE &&
      Exp(112) == 0x81 && Exp(113) == 0x1F && Exp(114) == 0x3E && Exp(115) == 0x7C &&
      Exp(116) == 0xF8 && Exp(117) == 0xED && Exp(118) == 0xC7 && Exp(119) == 0x93 &&
      Exp(120) == 0x3B && Exp(121) == 0x76 && Exp(122) == 0xEC && Exp(123) == 0xC5 &&
      Exp(124) == 0x97 && Exp(125) == 0x33 && Exp(126) == 0x66 && Exp(127) == 0xCC
  {
    ExpValues0();
    assert Exp(64) == 0x5F;
    assert Exp(65) == 0xBE;
    assert Exp(66) == 0x61;
    assert Exp(67) == 0xC2;
    assert Exp(68) == 0x99;
    assert Exp(69) == 0x2F;
    assert Exp(70) == 0x5E;
    assert Exp(71) == 0xBC;
    assert Exp(72) == 0x65;
    assert Exp(73) == 0xCA;
    assert Exp(74) == 0x89;
    assert Exp(75) == 0x0F;
    assert Exp(76) == 0x1E;
    assert Exp(77) == 0x3C;
    assert Exp(78) == 0x78;
    assert Exp(79) == 0xF0;
    assert Exp(80) == 0xFD;
    assert Exp(81) == 0xE7;
    assert Exp(82) == 0xD3;
    assert Exp(83) == 0xBB;
    assert Exp(84) == 0x6B;
    assert Exp(85) == 0xD6;
    assert Exp(86) == 0xB1;
    assert Exp(87) == 0x7F;
    assert Exp(88) == 0xFE;
    assert Exp(89) == 0xE1;
    assert Exp(90) == 0xDF;
    assert Exp(91) == 0xA3;
    assert Exp(92) == 0x5B;
    assert Exp(93) == 0xB6;
    assert Exp(94) == 0x71;
    assert Exp(95) == 0xE2;
    assert Exp(96) == 0xD9;
    assert Exp(97) == 0xAF;
    assert Exp(98) == 0x43;
    assert Exp(99) == 0x86;
    assert Exp(100) == 0x11;
    assert Exp(101) == 0x22;
    assert Exp(102) == 0x44;
    assert Exp(103) == 0x88;
    assert Exp(104) == 0x0D;
    assert Exp(105) == 0x1A;
    assert Exp(106) == 0x34;
    assert Exp(107) == 0x68;
    assert Exp(108) == 0xD0;
    assert Exp(109) == 0xBD;
    assert Exp(110) == 0x67;
    assert Exp(111) == 0xCE;
    assert Exp(112) == 0x81;
    assert Exp(113) == 0x1F;
    assert Exp(114) == 0x3E;
    assert Exp(115) == 0x7C;
    assert Exp(116) == 0xF8;
    assert Exp(117) == 0xED;
    assert Exp(118) == 0xC7;
    assert Exp(119) == 0x93;
    assert Exp(120) == 0x3B;
    assert Exp(121) == 0x76;
    assert Exp(122) == 0xEC;
    assert Exp(123) == 0xC5;
    assert Exp(124) == 0x97;
    assert Exp(125) == 0x33;
    assert Exp(126) == 0x66;
    assert Exp(127) == 0xCC;
  }

  /** The powers 2^128 .. 2^191. */
  lemma ExpValues2()
    ensures Exp(128) == 0x85 && Exp(129) == 0x17 && Exp(130) == 0x2E && Exp(131) == 0x5C &&
      Exp(132) == 0xB8 && Exp(133) == 0x6D && Exp(134) == 0xDA && Exp(135) == 0xA9 &&
      Exp(136) == 0x4F && Exp(137) == 0x9E && Exp(138) == 0x21 && Exp(139) == 0x42 &&
      Exp(140) == 0x84 && Exp(141) == 0x15 && Exp(142) == 0x2A && Exp(143) == 0x54 &&
      Exp(144) == 0xA8 && Exp(145) == 0x4D && Exp(146) == 0x9A && Exp(147) == 0x29 &&
      Exp(148) == 0x52 && Exp(149) == 0xA4 && Exp(150) == 0x55 && Exp(151) == 0xAA &&
      Exp(152) == 0x49 && Exp(153) == 0x92 && Exp(154) == 0x39 && Exp(155) == 0x72 &&
      Exp(156) == 0xE4 && Exp(157) == 0xD5 && Exp(158) == 0xB7 && Exp(159) == 0x73 &&
      Exp(160) == 0xE6 && Exp(161) == 0xD1 && Exp(162) == 0xBF && Exp(163) == 0x63 &&
      Exp(164) == 0xC6 && Exp(165) == 0x91 && Exp(166) == 0x3F && Exp(167) == 0x7E &&
      Exp(168) == 0xFC && Exp(169) == 0xE5 && Exp(170) == 0xD7 && Exp(171) == 0xB3 &&
      Exp(172) == 0x7B && Exp(173) == 0xF6 && Exp(174) == 0xF1 && Exp(175) == 0xFF &&
      Exp(176) == 0xE3 && Exp(177) == 0xDB && Exp(178) == 0xAB && Exp(179) == 0x4B &&
      Exp(180) == 0x96 && Exp(181) == 0x31 && Exp(182) == 0x62 && Exp(183) == 0xC4 &&
      Exp(184) == 0x95 && Exp(185) == 0x37 && Exp(186) == 0x6E && Exp(187) == 0xDC &&
      Exp(188) == 0xA5 && Exp(189) == 0x57 && Exp(190) == 0xAE && Exp(191) == 0x41
  {
    ExpValues1();
    assert Exp(128) == 0x85;
    assert Exp(129) == 0x17;
    assert Exp(130) == 0x2E;
    assert Exp(131) == 0x5C;
    assert Exp(132) == 0xB8;
    assert Exp(133) == 0x6D;
    assert Exp(134) == 0xDA;
    assert Exp(135) == 0xA9;
    assert Exp(136) == 0x4F;
    assert Exp(137) == 0x9E;
    assert Exp(138) == 0x21;
    assert Exp(139) == 0x42;
    assert Exp(140) == 0x84;
    assert Exp(141) == 0x15;
    assert Exp(142) == 0x2A;
    assert Exp(143) == 0x54;
    assert Exp(144) == 0xA8;
    assert Exp(145) == 0x4D;
    assert Exp(146) == 0x9A;
    assert Exp(147) == 0x29;
    assert Exp(148) == 0x52;
    assert Exp(149) == 0xA4;
    assert Exp(150) == 0x55;
    assert Exp(151) == 0xAA;
    assert Exp(152) == 0x49;
    assert Exp(153) == 0x92;
    assert Exp(154) == 0x39;
    assert Exp(155) == 0x72;
    assert Exp(156) == 0xE4;
    assert Exp(157) == 0xD5;
    assert Exp(158) == 0xB7;
    assert Exp(159) == 0x73;
    assert Exp(160) == 0xE6;
    assert Exp(161) == 0xD1;
    assert Exp(162) == 0xBF;
    assert Exp(163) == 0x63;
    assert Exp(164) == 0xC6;
    assert Exp(165) == 0x91;
    assert Exp(166) == 0x3F;
    assert Exp(167) == 0x7E;
    assert Exp(168) == 0xFC;
    assert Exp(169) == 0xE5;
    assert Exp(170) == 0xD7;
    assert Exp(171) == 0xB3;
    assert Exp(172) == 0x7B;
    assert Exp(173) == 0xF6;
    assert Exp(174) == 0xF1;
    assert Exp(175) == 0xFF;
    assert Exp(176) == 0xE3;
    assert Exp(177) == 0xDB;
    assert Exp(178) == 0xAB;
    assert Exp(179) == 0x4B;
    assert Exp(180) == 0x96;
    assert Exp(181) == 0x31;
    assert Exp(182) == 0x62;
    assert Exp(183) == 0xC4;
    assert Exp(184) == 0x95;
    assert Exp(185) == 0x37;
    assert Exp(186) == 0x6E;
    assert Exp(187) == 0xDC;
    assert Exp(188) == 0xA5;
    assert Exp(189) == 0x57;
    assert Exp(190) == 0xAE;
    assert Exp(191) == 0x41;
  }

  /** The powers 2^192 .. 2^255. */
  lemma ExpValues3()
    ensures Exp(192) == 0x82 && Exp(193) == 0x19 && Exp(194) == 0x32 && Exp(195) == 0x64 &&
      Exp(196) == 0xC8 && Exp(197) == 0x8D && Exp(198) == 0x07 && Exp(199) == 0x0E &&
      Exp(200) == 0x1C && Exp(201) == 0x38 && Exp(202) == 0x70 && Exp(203) == 0xE0 &&
      Exp(204) == 0xDD && Exp(205) == 0xA7 && Exp(206) == 0x53 && Exp(207) == 0xA6 &&
      Exp(208) == 0x51 && Exp(209) == 0xA2 && Exp(210) == 0x59 && Exp(211) == 0xB2 &&
      Exp(212) == 0x79 && Exp(213) == 0xF2 && Exp(214) == 0xF9 && Exp(215) == 0xEF &&
      Exp(216) == 0xC3 && Exp(217) == 0x9B && Exp(218) == 0x2B && Exp(219) == 0x56 &&
      Exp(220) == 0xAC && Exp(221) == 0x45 && Exp(222) == 0x8A && Exp(223) == 0x09 &&
      Exp(224) == 0x12 && Exp(225) == 0x24 && Exp(226) == 0x48 && Exp(227) == 0x90 &&
      Exp(228) == 0x3D && Exp(229) == 0x7A && Exp(230) == 0xF4 && Exp(231) == 0xF5 &&
      Exp(232) == 0xF7 && Exp(233) == 0xF3 && Exp(234) == 0xFB && Exp(235) == 0xEB &&
      Exp(236) == 0xCB && Exp(237) == 0x8B && Exp(238) == 0x0B && Exp(239) == 0x16 &&
      Exp(240) == 0x2C && Exp(241) == 0x58 && Exp(242) == 0xB0 && Exp(243) == 0x7D &&
      Exp(244) == 0xFA && Exp(245) == 0xE9 && Exp(246) == 0xCF && Exp(247) == 0x83 &&
      Exp(248) == 0x1B && Exp(249) == 0x36 && Exp(250) == 0x6C && Exp(251) == 0xD8 &&
      Exp(252) == 0xAD && Exp(253) == 0x47 && Exp(254) == 0x8E && Exp(255) == 0x01
  {
    ExpValues2();
    assert Exp(192) == 0x82;
    assert Exp(193) == 0x19;
    assert Exp(194) == 0x32;
    assert Exp(195) == 0x64;
    assert Exp(196) == 0xC8;
    assert Exp(197) == 0x8D;
    assert Exp(198) == 0x07;
    assert Exp(199) == 0x0E;
    assert Exp(200) == 0x1C;
    assert Exp(201) == 0x38;
    assert Exp(202) == 0x70;
    assert Exp(203) == 0xE0;
    assert Exp(204) == 0xDD;
    assert Exp(205) == 0xA7;
    assert Exp(206) == 0x53;
    assert Exp(207) == 0xA6;
    assert Exp(208) == 0x51;
    assert Exp(209) == 0xA2;
    assert Exp(210) == 0x59;
    assert Exp(211) == 0xB2;
    assert Exp(212) == 0x79;
    assert Exp(213) == 0xF2;
    assert Exp(214) == 0xF9;
    assert Exp(215) == 0xEF;
    assert Exp(216) == 0xC3;
    assert Exp(217) == 0x9B;
    assert Exp(218) == 0x2B;
    assert Exp(219) == 0x56;
    assert Exp(220) == 0xAC;
    assert Exp(221) == 0x45;
    assert Exp(222) == 0x8A;
    assert Exp(223) == 0x09;
    assert Exp(224) == 0x12;
    assert Exp(225) == 0x24;
    assert Exp(226) == 0x48;
    assert Exp(227) == 0x90;
    assert Exp(228) == 0x3D;
    assert Exp(229) == 0x7A;
    assert Exp(230) == 0xF4;
    assert Exp(231) == 0xF5;
    assert Exp(232) == 0xF7;
    assert Exp(233) == 0xF3;
    assert Exp(234) == 0xFB;
    assert Exp(235) == 0xEB;
    assert Exp(236) == 0xCB;
    assert Exp(237) == 0x8B;
    assert Exp(238) == 0x0B;
    assert Exp(239) == 0x16;
    assert Exp(240) == 0x2C;
    assert Exp(241) == 0x58;
    assert Exp(242) == 0xB0;
    assert Exp(243) == 0x7D;
    assert Exp(244) == 0xFA;
    assert Exp(245) == 0xE9;
    assert Exp(246) == 0xCF;
    assert Exp(247) == 0x83;
    assert Exp(248) == 0x1B;
    assert Exp(249) == 0x36;
    assert Exp(250) == 0x6C;
    assert Exp(251) == 0xD8;
    assert Exp(252) == 0xAD;
    assert Exp(253) == 0x47;
    assert Exp(254) == 0x8E;
    assert Exp(255) == 0x01;
  }

  /** 2 has order 255: 2^255 == 1. */
  lemma ExpCycle()
    ensures Exp(255) == 1
  {
    ExpValues3();
    assert Exp(255) == XTime(Exp(254));
  }

  lemma ExpOnto0(b: Byte)
    requires 0x01 <= b <= 0x1F
    ensures exists k: nat :: k < 255 && Exp(k) == b
  {
    ExpValues0(); ExpValues1(); ExpValues2(); ExpValues3();
    if b == 0x01 { assert Exp(0) == b; }
    else if b == 0x02 { assert Exp(1) == b; }
    else if b == 0x03 { assert Exp(25) == b; }
    else if b == 0x04 { assert Exp(2) == b; }
    else if b == 0x05 { assert Exp(50) == b; }
    else if b == 0x06 { assert Exp(26) == b; }
    else if b == 0x07 { assert Exp(198) == b; }
    else if b == 0x08 { assert Exp(3) == b; }
    else if b == 0x09 { assert Exp(223) == b; }
    else if b == 0x0A { assert Exp(51) == b; }
    else if b == 0x0B { assert Exp(238) == b; }
    else if b == 0x0C { assert Exp(27) == b; }
    else if b == 0x0D { assert Exp(104) == b; }
    else if b == 0x0E { assert Exp(199) == b; }
    else if b == 0x0F { assert Exp(75) == b; }
    else if b == 0x10 { assert Exp(4) == b; }
    else if b == 0x11 { assert Exp(100) == b; }
    else if b == 0x12 { assert Exp(224) == b; }
    else if b == 0x13 { assert Exp(14) == b; }
    else if b == 0x14 { assert Exp(52) == b; }
    else if b == 0x15 { assert Exp(141) == b; }
    else if b == 0x16 { assert Exp(239) == b; }
    else if b == 0x17 { assert Exp(129) == b; }
    else if b == 0x18 { assert Exp(28) == b; }
    else if b == 0x19 { assert Exp(193) == b; }
    else if b == 0x1A { assert Exp(105) == b; }
    else if b == 0x1B { assert Exp(248) == b; }
    else if b == 0x1C { assert Exp(200) == b; }
    else if b == 0x1D { assert Exp(8) == b; }
    else if b == 0x1E { assert Exp(76) == b; }
    else if b == 0x1F { assert Exp(113) == b; }
  }

  lemma ExpOnto1(b: Byte)
    requires 0x20 <= b <= 0x3F
    ensures exists k: nat :: k < 255 && Exp(k) == b
  {
    ExpValues0(); ExpValues1(); ExpValues2(); ExpValues3();
    if b == 0x20 { assert Exp(5) == b; }
    else if b == 0x21 { assert Exp(138) == b; }
    else if b == 0x22 { assert Exp(101) == b; }
    else if b == 0x23 { assert Exp(47) == b; }
    else if b == 0x24 { assert Exp(225) == b; }
    else if b == 0x25 { assert Exp(36) == b; }
    else if b == 0x26 { assert Exp(15) == b; }
    else if b == 0x27 { assert Exp(33) == b; }
    else if b == 0x28 { assert Exp(53) == b; }
    else if b == 0x29 { assert Exp(147) == b; }
    else if b == 0x2A { assert Exp(142) == b; }
    else if b == 0x2B { assert Exp(218) == b; }
    else if b == 0x2C { assert Exp(240) == b; }
    else if b == 0x2D { assert Exp(18) == b; }
    else if b == 0x2E { assert Exp(130) == b; }
    else if b == 0x2F { assert Exp(69) == b; }
    else if b == 0x30 { assert Exp(29) == b; }
    else if b == 0x31 { assert Exp(181) == b; }
    else if b == 0x32 { assert Exp(194) == b; }
    else if b == 0x33 { assert Exp(125) == b; }
    else if b == 0x34 { assert Exp(106) == b; }
    else if b == 0x35 { assert Exp(39) == b; }
    else if b == 0x36 { assert Exp(249) == b; }
    else if b == 0x37 { assert Exp(185) == b; }
    else if b == 0x38 { assert Exp(201) == b; }
    else if b == 0x39 { assert Exp(154) == b; }
    else if b == 0x3A { assert Exp(9) == b; }
    else if b == 0x3B { assert Exp(120) == b; }
    else if b == 0x3C { assert Exp(77) == b; }
    else if b == 0x3D { assert Exp(228) == b; }
    else if b == 0x3E { assert Exp(114) == b; }
    else if b == 0x3F { assert Exp(166) == b; }
  }

  lemma ExpOnto2(b: Byte)
    requires 0x40 <= b <= 0x5F
    ensures exists k: nat :: k < 255 && Exp(k) == b
  {
    ExpValues0(); ExpValues1(); ExpValues2(); ExpValues3();
    if b == 0x40 { assert Exp(6) == b; }
    else if b == 0x41 { assert Exp(191) == b; }
    else if b == 0x42 { assert Exp(139) == b; }
    else if b == 0x43 { assert Exp(98) == b; }
    else if b == 0x44 { assert Exp(102) == b; }
    else if b == 0x45 { assert Exp(221) == b; }
    else if b == 0x46 { assert Exp(48) == b; }
    else if b == 0x47 { assert Exp(253) == b; }
    else if b == 0x48 { assert Exp(226) == b; }
    else if b == 0x49 { assert Exp(152) == b; }
    else if b == 0x4A { assert Exp(37) == b; }
    else if b == 0x4B { assert Exp(179) == b; }
    else if b == 0x4C { assert Exp(16) == b; }
    else if b == 0x4D { assert Exp(145) == b; }
    else if b == 0x4E { assert Exp(34) == b; }
    else if b == 0x4F { assert Exp(136) == b; }
    else if b == 0x50 { assert Exp(54) == b; }
    else if b == 0x51 { assert Exp(208) == b; }
    else if b == 0x52 { assert Exp(148) == b; }
    else if b == 0x53 { assert Exp(206) == b; }
    else if b == 0x54 { assert Exp(143) == b; }
    else if b == 0x55 { assert Exp(150) == b; }
    else if b == 0x56 { assert Exp(219) == b; }
    else if b == 0x57 { assert Exp(189) == b; }
    else if b == 0x58 { assert Exp(241) == b; }
    else if b == 0x59 { assert Exp(210) == b; }
    else if b == 0x5A { assert Exp(19) == b; }
    else if b == 0x5B { assert Exp(92) == b; }
    else if b == 0x5C { assert Exp(131) == b; }
    else if b == 0x5D { assert Exp(56) == b; }
    else if b == 0x5E { assert Exp(70) == b; }
    else if b == 0x5F { assert Exp(64) == b; }
  }

  lemma ExpOnto3(b: Byte)
    requires 0x60 <= b <= 0x7F
    ensures exists k: nat :: k < 255 && Exp(k) == b
  {
    ExpValues0(); ExpValues1(); ExpValues2(); ExpValues3();
    if b == 0x60 { assert Exp(30) == b; }
    else if b == 0x61 { assert Exp(66) == b; }
    else if b == 0x62 { assert Exp(182) == b; }
    else if b == 0x63 { assert Exp(163) == b; }
    else if b == 0x64 { assert Exp(195) == b; }
    else if b == 0x65 { assert Exp(72) == b; }
    else if b == 0x66 { assert Exp(126) == b; }
    else if b == 0x67 { assert Exp(110) == b; }
    else if b == 0x68 { assert Exp(107) == b; }
    else if b == 0x69 { assert Exp(58) == b; }
    else if b == 0x6A { assert Exp(40) == b; }
    else if b == 0x6B { assert Exp(84) == b; }
    else if b == 0x6C { assert Exp(250) == b; }
    else if b == 0x6D { assert Exp(133) == b; }
    else if b == 0x6E { assert Exp(186) == b; }
    else if b == 0x6F { assert Exp(61) == b; }
    else if b == 0x70 { assert Exp(202) == b; }
    else if b == 0x71 { assert Exp(94) == b; }
    else if b == 0x72 { assert Exp(155) == b; }
    else if b == 0x73 { assert Exp(159) == b; }
    else if b == 0x74 { assert Exp(10) == b; }
    else if b == 0x75 { assert Exp(21) == b; }
    else if b == 0x76 { assert Exp(121) == b; }
    else if b == 0x77 { assert Exp(43) == b; }
    else if b == 0x78 { assert Exp(78) == b; }
    else if b == 0x79 { assert Exp(212) == b; }
    else if b == 0x7A { assert Exp(229) == b; }
    else if b == 0x7B { assert Exp(172) == b; }
    else if b == 0x7C { assert Exp(115) == b; }
    else if b == 0x7D { assert Exp(243) == b; }
    else if b == 0x7E { assert Exp(167) == b; }
    else if b == 0x7F { assert Exp(87) == b; }
  }

  lemma ExpOnto4(b: Byte)
    requires 0x80 <= b <= 0x9F
    ensures exists k: nat :: k < 255 && Exp(k) == b
  {
    ExpValues0(); ExpValues1(); ExpValues2(); ExpValues3();
    if b == 0x80 { assert Exp(7) == b; }
    else if b == 0x81 { assert Exp(112) == b; }
    else if b == 0x82 { assert Exp(192) == b; }
    else if b == 0x83 { assert Exp(247) == b; }
    else if b == 0x84 { assert Exp(140) == b; }
    else if b == 0x85 { assert Exp(128) == b; }
    else if b == 0x86 { assert Exp(99) == b; }
    else if b == 0x87 { assert Exp(13) == b; }
    else if b == 0x88 { assert Exp(103) == b; }
    else if b == 0x89 { assert Exp(74) == b; }
    else if b == 0x8A { assert Exp(222) == b; }
    else if b == 0x8B { assert Exp(237) == b; }
    else if b == 0x8C { assert Exp(49) == b; }
    else if b == 0x8D { assert Exp(197) == b; }
    else if b == 0x8E { assert Exp(254) == b; }
    else if b == 0x8F { assert Exp(24) == b; }
    else if b == 0x90 { assert Exp(227) == b; }
    else if b == 0x91 { assert Exp(165) == b; }
    else if b == 0x92 { assert Exp(153) == b; }
    else if b == 0x93 { assert Exp(119) == b; }
    else if b == 0x94 { assert Exp(38) == b; }
    else if b == 0x95 { assert Exp(184) == b; }
    else if b == 0x96 { assert Exp(180) == b; }
    else if b == 0x97 { assert Exp(124) == b; }
    else if b == 0x98 { assert Exp(17) == b; }
    else if b == 0x99 { assert Exp(68) == b; }
    else if b == 0x9A { assert Exp(146) == b; }
    else if b == 0x9B { assert Exp(217) == b; }
    else if b == 0x9C { assert Exp(35) == b; }
    else if b == 0x9D { assert Exp(32) == b; }
    else if b == 0x9E { assert Exp(137) == b; }
    else if b == 0x9F { assert Exp(46) == b; }
  }

  lemma ExpOnto5(b: Byte)
    requires 0xA0 <= b <= 0xBF
    ensures exists k: nat :: k < 255 && Exp(k) == b
  {
    ExpValues0(); ExpValues1(); ExpValues2(); ExpValues3();
    if b == 0xA0 { assert Exp(55) == b; }
    else if b == 0xA1 { assert Exp(63) == b; }
    else if b == 0xA2 { assert Exp(209) == b; }
    else if b == 0xA3 { assert Exp(91) == b; }
    else if b == 0xA4 { assert Exp(149) == b; }
    else if b == 0xA5 { assert Exp(188) == b; }
    else if b == 0xA6 { assert Exp(207) == b; }
    else if b == 0xA7 { assert Exp(205) == b; }
    else if b == 0xA8 { assert Exp(144) == b; }
    else if b == 0xA9 { assert Exp(135) == b; }
    else if b == 0xAA { assert Exp(151) == b; }
    else if b == 0xAB { assert Exp(178) == b; }
    else if b == 0xAC { assert Exp(220) == b; }
    else if b == 0xAD { assert Exp(252) == b; }
    else if b == 0xAE { assert Exp(190) == b; }
    else if b == 0xAF { assert Exp(97) == b; }
    else if b == 0xB0 { assert Exp(242) == b; }
    else if b == 0xB1 { assert Exp(86) == b; }
    else if b == 0xB2 { assert Exp(211) == b; }
    else if b == 0xB3 { assert Exp(171) == b; }
    else if b == 0xB4 { assert Exp(20) == b; }
    else if b == 0xB5 { assert Exp(42) == b; }
    else if b == 0xB6 { assert Exp(93) == b; }
    else if b == 0xB7 { assert Exp(158) == b; }
    else if b == 0xB8 { assert Exp(132) == b; }
    else if b == 0xB9 { assert Exp(60) == b; }
    else if b == 0xBA { assert Exp(57) == b; }
    else if b == 0xBB { assert Exp(83) == b; }
    else if b == 0xBC { assert Exp(71) == b; }
    else if b == 0xBD { assert Exp(109) == b; }
    else if b == 0xBE { assert Exp(65) == b; }
    else if b == 0xBF { assert Exp(162) == b; }
  }

  lemma ExpOnto6(b: Byte)
    requires 0xC0 <= b <= 0xDF
    ensures exists k: nat :: k < 255 && Exp(k) == b
  {
    ExpValues0(); ExpValues1(); ExpValues2(); ExpValues3();
    if b == 0xC0 { assert Exp(31) == b; }
    else if b == 0xC1 { assert Exp(45) == b; }
    else if b == 0xC2 { assert Exp(67) == b; }
    else if b == 0xC3 { assert Exp(216) == b; }
    else if b == 0xC4 { assert Exp(183) == b; }
    else if b == 0xC5 { assert Exp(123) == b; }
    else if b == 0xC6 { assert Exp(164) == b; }
    else if b == 0xC7 { assert Exp(118) == b; }
    else if b == 0xC8 { assert Exp(196) == b; }
    else if b == 0xC9 { assert Exp(23) == b; }
    else if b == 0xCA { assert Exp(73) == b; }
    else if b == 0xCB { assert Exp(236) == b; }
    else if b == 0xCC { assert Exp(127) == b; }
    else if b == 0xCD { assert Exp(12) == b; }
    else if b == 0xCE { assert Exp(111) == b; }
    else if b == 0xCF { assert Exp(246) == b; }
    else if b == 0xD0 { assert Exp(108) == b; }
    else if b == 0xD1 { assert Exp(161) == b; }
    else if b == 0xD2 { assert Exp(59) == b; }
    else if b == 0xD3 { assert Exp(82) == b; }
    else if b == 0xD4 { assert Exp(41) == b; }
    else if b == 0xD5 { assert Exp(157) == b; }
    else if b == 0xD6 { assert Exp(85) == b; }
    else if b == 0xD7 { assert Exp(170) == b; }
    else if b == 0xD8 { assert Exp(251) == b; }
    else if b == 0xD9 { assert Exp(96) == b; }
    else if b == 0xDA { assert Exp(134) == b; }
    else if b == 0xDB { assert Exp(177) == b; }
    else if b == 0xDC { assert Exp(187) == b; }
    else if b == 0xDD { assert Exp(204) == b; }
    else if b == 0xDE { assert Exp(62) == b; }
    else if b == 0xDF { assert Exp(90) == b; }
  }

  lemma ExpOnto7(b: Byte)
    requires 0xE0 <= b <= 0xFF
    ensures exists k: nat :: k < 255 && Exp(k) == b
  {
    ExpValues0(); ExpValues1(); ExpValues2(); ExpValues3();
    if b == 0xE0 { assert Exp(203) == b; }
    else if b == 0xE1 { assert Exp(89) == b; }
    else if b == 0xE2 { assert Exp(95) == b; }
    else if b == 0xE3 { assert Exp(176) == b; }
    else if b == 0xE4 { assert Exp(156) == b; }
    else if b == 0xE5 { assert Exp(169) == b; }
    else if b == 0xE6 { assert Exp(160) == b; }
    else if b == 0xE7 { assert Exp(81) == b; }
    else if b == 0xE8 { assert Exp(11) == b; }
    else if b == 0xE9 { assert Exp(245) == b; }
    else if b == 0xEA { assert Exp(22) == b; }
    else if b == 0xEB { assert Exp(235) == b; }
    else if b == 0xEC { assert Exp(122) == b; }
    else if b == 0xED { assert Exp(117) == b; }
    else if b == 0xEE { assert Exp(44) == b; }
    else if b == 0xEF { assert Exp(215) == b; }
    else if b == 0xF0 { assert Exp(79) == b; }
    else if b == 0xF1 { assert Exp(174) == b; }
    else if b == 0xF2 { assert Exp(213) == b; }
    else if b == 0xF3 { assert Exp(233) == b; }
    else if b == 0xF4 { assert Exp(230) == b; }
    else if b == 0xF5 { assert Exp(231) == b; }
    else if b == 0xF6 { assert Exp(173) == b; }
    else if b == 0xF7 { assert Exp(232) == b; }
    else if b == 0xF8 { assert Exp(116) == b; }
    else if b == 0xF9 { assert Exp(214) == b; }
    else if b == 0xFA { assert Exp(244) == b; }
    else if b == 0xFB { assert Exp(234) == b; }
    else if b == 0xFC { assert Exp(168) == b; }
    else if b == 0xFD { assert Exp(80) == b; }
    else if b == 0xFE { assert Exp(88) == b; }
    else if b == 0xFF { assert Exp(175) == b; }
  }

  /** Every non-zero byte is a power of 2. */
  lemma ExpOnto(b: Byte)
    requires b != 0
    ensures exists k: nat :: k < 255 && Exp(k) == b
  {
    if b < 0x20 { ExpOnto0(b); }
    else if b < 0x40 { ExpOnto1(b); }
    else if b < 0x60 { ExpOnto2(b); }
    else if b < 0x80 { ExpOnto3(b); }
    else if b < 0xA0 { ExpOnto4(b); }
    else if b < 0xC0 { ExpOnto5(b); }
    else if b < 0xE0 { ExpOnto6(b); }
    else { ExpOnto7(b); }
  }

  // ---------------------------------------------------------------------
  // Inverses and division.

  /** Every non-zero byte has an inverse: the inverse of 2^k is 2^(255 - k). */
  lemma InverseExists(b: Byte)
    requires b != 0
    ensures exists c: Byte :: Mul(b, c) == 1
  {
    ExpOnto(b);
    var k: nat :| k < 255 && Exp(k) == b;
    ExpAdd(k, 255 - k);
    ExpCycle();
    assert Mul(b, Exp(255 - k)) == 1;
  }

  lemma InvSearchStep(b: Byte, c0: nat)
    requires c0 < 255 && Mul(b, c0 as Byte) != 1
    ensures InvSearch(b, c0) == InvSearch(b, c0 + 1)
  {
  }

  /** The search finds an inverse whenever one lies ahead of it. */
  lemma {:induction false} InvSearchFinds(b: Byte, c0: nat, c: Byte)
    requires c0 <= c as nat && Mul(b, c) == 1
    ensures Mul(b, InvSearch(b, c0)) == 1
    decreases 255 - c0
  {
    if Mul(b, c0 as Byte) != 1 {
      InvSearchFinds(b, c0 + 1, c);
      InvSearchStep(b, c0);
    }
  }

  /** b * b^-1 == b^-1 * b == 1 for every non-zero b. */
  lemma MulInv(b: Byte)
    requires b != 0
    ensures Mul(b, Inv(b)) == 1 && Mul(Inv(b), b) == 1
  {
    InverseExists(b);
    var c: Byte :| Mul(b, c) == 1;
    InvSearchFinds(b, 0, c);
    MulComm(b, Inv(b));
  }

  /** Division undoes multiplication: (a / b) * b == a for b != 0. */
  lemma DivCancel(a: Byte, b: Byte)
    requires b != 0
    ensures Mul(Div(a, b), b) == a
  {
    MulInv(b);
    MulAssoc(a, Inv(b), b);
    MulOneRight(a);
  }

  /** Zero divided by anything is zero. */
  lemma DivZero(b: Byte)
    ensures Div(0, b) == 0
  {
    MulZero(Inv(b));
  }

  /** The only way to get a zero product is a zero factor. */
  lemma NoZeroDivisors(a: Byte, b: Byte)
    ensures Mul(a, b) == 0 <==> a == 0 || b == 0
  {
    MulZero(a);
    MulZero(b);
    if b != 0 {
      DivCancel(a, b);
      MulComm(a, b);
      MulZero(Inv(b));
      MulSwap(a, b, Inv(b));
    }
  }
}
