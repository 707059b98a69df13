/**
 * Reed-Solomon error correction bytes for a QR code: the data bytes become
 * the coefficients of a message polynomial shifted up by k powers, and the k
 * correction bytes are the remainder of dividing it by the generator
 * polynomial (x - 2^0)(x - 2^1)...(x - 2^(k-1)) over GF(2^8).
 */
module ReedSolomon {
  import opened GF256
  import opened Polynomials

  // ---------------------------------------------------------------------
  // The message polynomial.

  /** The powers lo, lo + 1, ..., hi - 1. */
  function Powers(lo: nat, hi: nat): (s: set<nat>)
    ensures forall e :: e in s <==> lo <= e < hi
    decreases hi - lo
  {
    if lo >= hi then {} else {lo} + Powers(lo + 1, hi)
  }

  /** The data byte that becomes the coefficient of x^e. */
  function MessageByte(data: seq<Byte>, k: nat, e: nat): Byte
    requires k <= e < k + |data|
  {
    data[k + |data| - 1 - e]
  }

  /** data[i] * x^(k + n - i - 1) for each of the n data bytes: the data, highest power first, above k zeros. */
  ghost function MessagePoly(data: seq<Byte>, k: nat): Polynomial
  {
    Polynomial(map e | e in Powers(k, k + |data|) :: MessageByte(data, k, e))
  }

  /** Builds the message polynomial one data byte at a time. */
  method CreateMessage(data: seq<Byte>, k: nat) returns (m: Polynomial)
    ensures m == MessagePoly(data, k)
    ensures m.terms.Keys == Powers(k, k + |data|)
    ensures forall i :: 0 <= i < |data| ==> Coeff(m, k + |data| - i - 1) == data[i]
    ensures forall e: nat :: e < k ==> Coeff(m, e) == 0
  {
    var n := |data|;
    var terms: Terms := map[];
    var idx := 0;
    while idx < n
      invariant 0 <= idx <= n
      invariant terms.Keys == Powers(k + n - idx, k + n)
      invariant forall e: nat :: e in terms ==> terms[e] == data[k + n - 1 - e]
    {
      terms := terms[k + n - idx - 1 := data[idx]];
      idx := idx + 1;
    }
    m := Polynomial(terms);
    assert m.terms == MessagePoly(data, k).terms;
    forall i | 0 <= i < n ensures Coeff(m, k + n - i - 1) == data[i] {
      assert k + n - i - 1 in terms;
    }
  }

  /** A message whose first byte is non-zero has degree k + n - 1. */
  lemma MessageDegree(data: seq<Byte>, k: nat)
    requires |data| > 0 && data[0] != 0
    ensures Deg(MessagePoly(data, k)) == k + |data| - 1
  {
    var m := MessagePoly(data, k);
    assert k + |data| - 1 in Powers(k, k + |data|);
    assert m.terms[k + |data| - 1] == data[0];
    DegreeUnique(m, k + |data| - 1, Deg(m));
  }

  /** The bytes [5, 9] with two correction bytes: 5 * x^3 + 9 * x^2. */
  lemma MessageExample()
    ensures MessagePoly([5, 9], 2) == Polynomial(map[3 := 5, 2 := 9])
  {
    var m := MessagePoly([5, 9], 2);
    assert Powers(2, 4) == {2, 3};
    assert m.terms.Keys == {2, 3};
    assert m.terms == map[3 := 5, 2 := 9];
  }

  // ---------------------------------------------------------------------
  // The generator polynomial.

  /**
   * The coefficient of x^n in (x + 2^0)(x + 2^1)...(x + 2^(k-1)), which is
   * (x - 2^0)...(x - 2^(k-1)) since subtraction is addition in GF(2^8).
   */
  ghost function GenCoeff(k: nat, n: nat): Byte
    decreases k
  {
    if k == 0 then (if n == 0 then 1 else 0)
    else Add(Mul(Power(2, k - 1), GenCoeff(k - 1, n)), if n >= 1 then GenCoeff(k - 1, n - 1) else 0)
  }

  /** The generator polynomial of degree k, as a value. */
  ghost function Generator(k: nat): Polynomial
  {
    Polynomial(map n: nat | n <= k :: GenCoeff(k, n))
  }

  /** The generator is monic of degree k: its x^k coefficient is 1 and nothing lies above it. */
  lemma {:induction false} GenMonic(k: nat)
    ensures GenCoeff(k, k) == 1
    ensures forall n: nat :: n > k ==> GenCoeff(k, n) == 0
    decreases k
  {
    if k > 0 {
      GenMonic(k - 1);
      MulZero(Power(2, k - 1));
    }
  }

  /** Generator(k) has exactly the generator's coefficients. */
  lemma GeneratorCoeff(k: nat)
    ensures forall n: nat :: Coeff(Generator(k), n) == GenCoeff(k, n)
    ensures IsDegree(Generator(k), k) && Deg(Generator(k)) == k
  {
    GenMonic(k);
    DegreeUnique(Generator(k), k, Deg(Generator(k)));
  }

  /** Multiplying by x + 2^k takes the generator of degree k to that of degree k + 1. */
  lemma GenStep(g: Polynomial, k: nat, r: Polynomial)
    requires forall n: nat :: Coeff(g, n) == GenCoeff(k, n)
    requires forall n: nat :: Coeff(r, n) == ProdCoeff(g, Linear(Power(2, k)), n)
    ensures forall n: nat :: Coeff(r, n) == GenCoeff(k + 1, n)
  {
    ProductByLinear(g, Power(2, k));
  }

  /**
   * Builds the generator by multiplying {0: 1} by x + 2^i for i = 0, 1, ...,
   * k - 1 in turn.
   */
  method CreateGenerator(k: nat) returns (g: Polynomial)
    ensures forall n: nat :: Coeff(g, n) == GenCoeff(k, n)
    ensures SameCoefficients(g, Generator(k))
    ensures IsDegree(g, k) && Coeff(g, k) == 1
    ensures k == 0 ==> g == Polynomial(map[0 := 1])
  {
    g := Polynomial(map[0 := 1]);
    var idx := 0;
    while idx < k
      invariant 0 <= idx <= k
      invariant forall n: nat :: Coeff(g, n) == GenCoeff(idx, n)
      invariant idx == 0 ==> g == Polynomial(map[0 := 1])
    {
      var next := MultiplyByPolynomial(g, Linear(Power(2, idx)));
      GenStep(g, idx, next);
      g := next;
      idx := idx + 1;
    }
    GenMonic(k);
    GeneratorCoeff(k);
    assert SameCoefficients(g, Generator(k)) by {
      forall e: nat ensures Coeff(g, e) == Coeff(Generator(k), e) {
      }
    }
    assert IsDegree(g, k) by {
      forall e | e in g.terms && g.terms[e] != 0 ensures e <= k {
        assert Coeff(g, e) != 0;
      }
      assert Coeff(g, k) == 1;
    }
  }

  /** With two correction bytes the generator is (x + 1)(x + 2) == x^2 + 3x + 2. */
  lemma GeneratorTwo()
    ensures SameCoefficients(Generator(2), Polynomial(map[2 := 1, 1 := 3, 0 := 2]))
  {
    var target := Polynomial(map[2 := 1, 1 := 3, 0 := 2]);
    GeneratorTwoCoeffs();
    GeneratorCoeff(2);
    GenMonic(2);
    forall n: nat ensures Coeff(Generator(2), n) == Coeff(target, n) {
      if n > 2 {
        assert Coeff(target, n) == 0;
      }
    }
  }

  /** The coefficients of x^0, x^1 and x^2 in (x + 2^0)(x + 2^1). */
  lemma GeneratorTwoCoeffs()
    ensures GenCoeff(2, 0) == 2 && GenCoeff(2, 1) == 3 && GenCoeff(2, 2) == 1
  {
    MulOneRight(2);
    assert Power(2, 1) == 2;
    MulOneLeft(1);
    MulOneLeft(0);
    MulZero(2);
    assert GenCoeff(1, 0) == 1 && GenCoeff(1, 1) == 1 && GenCoeff(1, 2) == 0;
  }

  // ---------------------------------------------------------------------
  // The correction bytes.

  /** ProdCoeff depends on the right factor only through its coefficients. */
  lemma {:induction false} ConvSumSame(p: Polynomial, q: Polynomial, q': Polynomial, n: nat, j: nat)
    requires SameCoefficients(q, q')
    ensures ConvSum(p, q, n, j) == ConvSum(p, q', n, j)
    decreases j
  {
    assert Coeff(q, j) == Coeff(q', j);
    if j > 0 {
      ConvSumSame(p, q, q', n, j - 1);
    }
  }

  lemma DivisionBySame(num: Polynomial, den: Polynomial, den': Polynomial, quo: Polynomial, rem: Polynomial)
    requires SameCoefficients(den, den')
    requires IsDivision(num, den, quo, rem)
    ensures IsDivision(num, den', quo, rem)
  {
    forall n: nat ensures ProdCoeff(quo, den, n) == ProdCoeff(quo, den', n) {
      ConvSumSame(quo, den, den', n, n);
    }
  }

  /**
   * The k error correction bytes for the data: the remainder of the message
   * polynomial divided by the generator of degree k. The generator is never
   * zero, so the division always succeeds.
   */
  method ReedSolomonCorrection(data: seq<Byte>, k: nat) returns (r: Polynomial)
    ensures IsZero(r) || Deg(r) < k
    ensures exists quo :: IsDivision(MessagePoly(data, k), Generator(k), quo, r)
  {
    var msg := CreateMessage(data, k);
    var gen := CreateGenerator(k);
    DegreeUnique(gen, k, Deg(gen));
    assert !IsZero(gen) by {
      assert Coeff(gen, k) != 0;
    }
    var res := Remainder(msg, gen);
    r := res.value;
    ghost var quo :| IsDivision(msg, gen, quo, r);
    DivisionBySame(msg, gen, Generator(k), quo, r);
  }
}
