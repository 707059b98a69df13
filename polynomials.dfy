/**
 * Polynomials over GF(2^8) as the QR-code encoder represents them: a map from
 * powers to coefficients. A power that is absent has coefficient 0, and a
 * present power may still carry an explicit 0 coefficient, so two different
 * maps can denote the same polynomial. Every operation returns a new value;
 * nothing is updated in place.
 */
module Polynomials {
  import opened GF256

  type Terms = map<nat, Byte>

  datatype Polynomial = Polynomial(terms: Terms)

  /** Outcome of an operation that divides by a coefficient. */
  datatype Result<T> = Ok(value: T) | DivisionByZero

  /** The zero polynomial, with no terms. */
  function Zero(): Polynomial
  {
    Polynomial(map[])
  }

  /** The single term c * x^e. */
  function Monomial(c: Byte, e: nat): Polynomial
  {
    Polynomial(map[e := c])
  }

  /** The coefficient of x^e; 0 when the power is absent. */
  function Coeff(p: Polynomial, e: nat): Byte
  {
    if e in p.terms then p.terms[e] else 0
  }

  /** p and q denote the same polynomial: every power has the same coefficient. */
  ghost predicate SameCoefficients(p: Polynomial, q: Polynomial)
  {
    forall e :: Coeff(p, e) == Coeff(q, e)
  }

  /** Every coefficient is 0. */
  ghost predicate IsZero(p: Polynomial)
  {
    forall e :: Coeff(p, e) == 0
  }

  /**
   * d is the degree of p: the largest power with a non-zero coefficient, or 0
   * when there is none. Powers with an explicit 0 coefficient do not count.
   */
  predicate IsDegree(p: Polynomial, d: nat)
  {
    (forall e :: e in p.terms && p.terms[e] != 0 ==> e <= d) &&
    (d == 0 || (d in p.terms && p.terms[d] != 0))
  }

  /** The largest power in ks with a non-zero coefficient in t, or 0. */
  ghost function MaxNonzero(t: Terms, ks: set<nat>): (d: nat)
    requires ks <= t.Keys
    ensures forall e :: e in ks && t[e] != 0 ==> e <= d
    ensures d == 0 || (d in ks && t[d] != 0)
    decreases ks
  {
    if ks == {} then 0
    else
      var k :| k in ks;
      var r := MaxNonzero(t, ks - {k});
      if t[k] != 0 && k > r then k else r
  }

  /** The degree of p. */
  ghost function Deg(p: Polynomial): (d: nat)
    ensures IsDegree(p, d)
  {
    MaxNonzero(p.terms, p.terms.Keys)
  }

  /** A polynomial has exactly one degree. */
  lemma DegreeUnique(p: Polynomial, d1: nat, d2: nat)
    requires IsDegree(p, d1) && IsDegree(p, d2)
    ensures d1 == d2
  {
  }

  /** No power above the degree has a non-zero coefficient. */
  lemma CoeffAboveDegree(p: Polynomial, e: nat)
    requires e > Deg(p)
    ensures Coeff(p, e) == 0
  {
  }

  /** The leading coefficient is 0 exactly for the zero polynomial, whose degree is 0. */
  lemma LeadingCoeffZero(p: Polynomial)
    ensures Coeff(p, Deg(p)) == 0 <==> IsZero(p)
    ensures IsZero(p) ==> Deg(p) == 0
  {
    if Coeff(p, Deg(p)) == 0 {
      forall e: nat ensures Coeff(p, e) == 0 {
      }
    }
  }

  /** Polynomials with the same coefficients have the same degree. */
  lemma DegreeOfSame(p: Polynomial, q: Polynomial)
    requires SameCoefficients(p, q)
    ensures Deg(p) == Deg(q)
  {
    assert IsDegree(q, Deg(p)) by {
      forall e | e in q.terms && q.terms[e] != 0 ensures e <= Deg(p) {
        assert Coeff(p, e) == Coeff(q, e);
      }
      if Deg(p) != 0 {
        assert Coeff(q, Deg(p)) == Coeff(p, Deg(p));
      }
    }
    DegreeUnique(q, Deg(p), Deg(q));
  }

  /** The degree by a running maximum over the powers, as the encoder computes it. */
  method Degree(p: Polynomial) returns (d: nat)
    ensures IsDegree(p, d) && d == Deg(p)
  {
    d := 0;
    var rest := p.terms.Keys;
    while rest != {}
      invariant rest <= p.terms.Keys
      invariant forall e :: e in p.terms.Keys - rest && p.terms[e] != 0 ==> e <= d
      invariant d == 0 || (d in p.terms && p.terms[d] != 0)
      decreases rest
    {
      var e :| e in rest;
      if e > d && p.terms[e] != 0 {
        d := e;
      }
      rest := rest - {e};
    }
    DegreeUnique(p, d, Deg(p));
  }

  /**
   * Equality of polynomials: every non-zero term of q appears with the same
   * coefficient in p, and every non-zero term of p appears in q.
   */
  method Equals(p: Polynomial, q: Polynomial) returns (b: bool)
    ensures b <==> SameCoefficients(p, q)
  {
    var rest := q.terms.Keys;
    while rest != {}
      invariant rest <= q.terms.Keys
      invariant forall e :: e in q.terms.Keys - rest ==> q.terms[e] == 0 || Coeff(p, e) == q.terms[e]
      decreases rest
    {
      var e :| e in rest;
      var c := q.terms[e];
      if c != 0 {
        if e !in p.terms {
          assert Coeff(p, e) != Coeff(q, e);
          return false;
        }
        if p.terms[e] != c {
          assert Coeff(p, e) != Coeff(q, e);
          return false;
        }
      }
      rest := rest - {e};
    }
    rest := p.terms.Keys;
    while rest != {}
      invariant rest <= p.terms.Keys
      invariant forall e :: e in p.terms.Keys - rest ==> p.terms[e] == 0 || Coeff(q, e) == p.terms[e]
      decreases rest
    {
      var e :| e in rest;
      var c := p.terms[e];
      if c != 0 {
        if e !in q.terms {
          assert Coeff(p, e) != Coeff(q, e);
          return false;
        }
        if q.terms[e] != c {
          assert Coeff(p, e) != Coeff(q, e);
          return false;
        }
      }
      rest := rest - {e};
    }
    forall e: nat ensures Coeff(p, e) == Coeff(q, e) {
      if e in q.terms && q.terms[e] != 0 {
      } else if e in p.terms && p.terms[e] != 0 {
      }
    }
    return true;
  }

  /** Equality ignores explicit zero terms: {1: 0, 2: 5} equals {2: 5}, both ways round. */
  lemma EqualsIgnoresZeroTerms()
    ensures SameCoefficients(Polynomial(map[1 := 0, 2 := 5]), Polynomial(map[2 := 5]))
    ensures SameCoefficients(Polynomial(map[2 := 5]), Polynomial(map[1 := 0, 2 := 5]))
    ensures !SameCoefficients(Polynomial(map[2 := 5]), Polynomial(map[2 := 4]))
  {
    var p := Polynomial(map[1 := 0, 2 := 5]);
    var q := Polynomial(map[2 := 5]);
    forall e: nat ensures Coeff(p, e) == Coeff(q, e) {
      if e == 1 {
        assert Coeff(p, e) == 0;
      }
    }
    assert Coeff(Polynomial(map[2 := 5]), 2) != Coeff(Polynomial(map[2 := 4]), 2);
  }

  // ---------------------------------------------------------------------
  // Terms.

  /** p + c * x^e: the coefficient of x^e gains c (field addition); nothing else changes. */
  function AddTerm(p: Polynomial, c: Byte, e: nat): (r: Polynomial)
    ensures r.terms.Keys == p.terms.Keys + {e}
    ensures Coeff(r, e) == Add(Coeff(p, e), c)
    ensures forall k: nat :: k != e ==> Coeff(r, k) == Coeff(p, k)
  {
    Polynomial(p.terms[e := Add(Coeff(p, e), c)])
  }

  /** p - c * x^e: the coefficient of x^e loses c (field subtraction); nothing else changes. */
  function SubtractTerm(p: Polynomial, c: Byte, e: nat): (r: Polynomial)
    ensures r.terms.Keys == p.terms.Keys + {e}
    ensures Coeff(r, e) == Sub(Coeff(p, e), c)
    ensures forall k: nat :: k != e ==> Coeff(r, k) == Coeff(p, k)
  {
    Polynomial(p.terms[e := Sub(Coeff(p, e), c)])
  }

  /** In characteristic 2, subtracting a term is adding it. */
  lemma SubtractTermIsAddTerm(p: Polynomial, c: Byte, e: nat)
    ensures SubtractTerm(p, c, e) == AddTerm(p, c, e)
  {
  }

  /** Adding the same term twice gives back the original polynomial. */
  lemma AddTermTwice(p: Polynomial, c: Byte, e: nat)
    ensures SameCoefficients(AddTerm(AddTerm(p, c, e), c, e), p)
  {
  }

  /**
   * p * (c * x^e): every power k of p moves to k + e with coefficient c times
   * its old one, so no power below e remains.
   */
  function MultiplyByTerm(p: Polynomial, c: Byte, e: nat): (r: Polynomial)
    ensures forall k: nat :: k in r.terms <==> k >= e && k - e in p.terms
    ensures forall k: nat :: k >= e ==> Coeff(r, k) == Mul(c, Coeff(p, k - e))
    ensures forall k: nat :: k < e ==> Coeff(r, k) == 0
  {
    MulZero(c);
    var powers := set k | k in p.terms :: k + e;
    Polynomial(map k | k in powers :: Mul(c, p.terms[k - e]))
  }

  /** Multiplying a non-zero polynomial by a non-zero term raises its degree by the term's power. */
  lemma MultiplyByTermDegree(p: Polynomial, c: Byte, e: nat)
    requires c != 0 && !IsZero(p)
    ensures Deg(MultiplyByTerm(p, c, e)) == Deg(p) + e
  {
    var r := MultiplyByTerm(p, c, e);
    var d := Deg(p);
    LeadingCoeffZero(p);
    NoZeroDivisors(c, Coeff(p, d));
    assert Coeff(r, d + e) != 0;
    assert IsDegree(r, d + e) by {
      forall k | k in r.terms && r.terms[k] != 0 ensures k <= d + e {
        if k > d + e {
          CoeffAboveDegree(p, k - e);
          MulZero(c);
        }
      }
    }
    DegreeUnique(r, d + e, Deg(r));
  }

  // ---------------------------------------------------------------------
  // Sums.

  /** The sum of p and q, term by term. */
  function Sum(p: Polynomial, q: Polynomial): Polynomial
  {
    Polynomial(map k | k in p.terms.Keys + q.terms.Keys :: Add(Coeff(p, k), Coeff(q, k)))
  }

  /** Each coefficient of the sum is the field sum of the two coefficients. */
  lemma SumCoeff(p: Polynomial, q: Polynomial)
    ensures forall k: nat :: Coeff(Sum(p, q), k) == Add(Coeff(p, k), Coeff(q, k))
  {
  }

  /** Addition of polynomials is commutative. */
  lemma SumComm(p: Polynomial, q: Polynomial)
    ensures Sum(p, q) == Sum(q, p)
  {
  }

  /** Adding q twice gives back p: subtraction undoes addition. */
  lemma SumCancel(p: Polynomial, q: Polynomial)
    ensures SameCoefficients(Sum(Sum(p, q), q), p)
  {
  }

  /** q restricted to the powers in ks. */
  function Restrict(q: Polynomial, ks: set<nat>): Polynomial
    requires ks <= q.terms.Keys
  {
    Polynomial(map k | k in ks :: q.terms[k])
  }

  lemma RestrictAll(q: Polynomial)
    ensures Restrict(q, q.terms.Keys) == q
  {
  }

  /** Two polynomials with the same powers and the same coefficients are the same value. */
  lemma SamePolynomial(l: Polynomial, r: Polynomial)
    requires l.terms.Keys == r.terms.Keys
    requires forall k: nat :: k in l.terms ==> Coeff(l, k) == Coeff(r, k)
    ensures l == r
  {
    assert l.terms == r.terms;
  }

  lemma SumNothing(p: Polynomial, q: Polynomial)
    ensures Sum(p, Restrict(q, {})) == p
  {
    var r := Sum(p, Restrict(q, {}));
    assert r.terms.Keys == p.terms.Keys;
    SamePolynomial(r, p);
  }

  lemma SumStep(p: Polynomial, q: Polynomial, done: set<nat>, k: nat)
    requires done <= q.terms.Keys && k in q.terms && k !in done
    ensures AddTerm(Sum(p, Restrict(q, done)), q.terms[k], k) == Sum(p, Restrict(q, done + {k}))
  {
    var s := Sum(p, Restrict(q, done));
    var l := AddTerm(s, q.terms[k], k);
    var r := Sum(p, Restrict(q, done + {k}));
    assert l.terms.Keys == r.terms.Keys;
    forall j: nat | j in l.terms ensures Coeff(l, j) == Coeff(r, j) {
      SumCoeff(p, Restrict(q, done));
      SumCoeff(p, Restrict(q, done + {k}));
      if j == k {
        assert Coeff(Restrict(q, done), j) == 0;
      } else {
        assert Coeff(Restrict(q, done), j) == Coeff(Restrict(q, done + {k}), j);
      }
    }
    SamePolynomial(l, r);
  }

  /** Adds every term of q to p, one term at a time. */
  method AddPolynomial(p: Polynomial, q: Polynomial) returns (r: Polynomial)
    ensures r == Sum(p, q)
  {
    r := p;
    var done: set<nat> := {};
    var rest := q.terms.Keys;
    SumNothing(p, q);
    while rest != {}
      invariant rest <= q.terms.Keys && done == q.terms.Keys - rest
      invariant r == Sum(p, Restrict(q, done))
      decreases rest
    {
      var k :| k in rest;
      SumStep(p, q, done, k);
      r := AddTerm(r, q.terms[k], k);
      done := done + {k};
      rest := rest - {k};
    }
    assert done == q.terms.Keys;
    RestrictAll(q);
  }

  /**
   * The difference of p and q. The encoder subtracts with the very loop of
   * AddPolynomial (it adds every term of q with add_term), which is the
   * difference of p and q since subtraction is addition in characteristic 2.
   */
  method SubtractPolynomial(p: Polynomial, q: Polynomial) returns (r: Polynomial)
    ensures r == Sum(p, q)
    ensures forall k: nat :: Coeff(r, k) == Sub(Coeff(p, k), Coeff(q, k))
  {
    r := AddPolynomial(p, q);
    SumCoeff(p, q);
  }

  // ---------------------------------------------------------------------
  // Products.

  /**
   * The sum of q_i * p_(n-i) over the powers i <= j of q (i <= n): with j == n
   * it is the coefficient of x^n in the product p * q.
   */
  ghost function ConvSum(p: Polynomial, q: Polynomial, n: nat, j: nat): Byte
    decreases j
  {
    var t := if j <= n then Mul(Coeff(q, j), Coeff(p, n - j)) else 0;
    if j == 0 then t else Add(ConvSum(p, q, n, j - 1), t)
  }

  /** The coefficient of x^n in p * q. */
  ghost function ProdCoeff(p: Polynomial, q: Polynomial, n: nat): Byte
  {
    ConvSum(p, q, n, n)
  }

  /** With no powers of q taken, the product is zero. */
  lemma {:induction false} ConvSumNone(p: Polynomial, q: Polynomial, n: nat, j: nat)
    ensures ConvSum(p, Restrict(q, {}), n, j) == 0
    decreases j
  {
    if j <= n {
      MulZero(Coeff(p, n - j));
    }
    if j > 0 {
      ConvSumNone(p, q, n, j - 1);
    }
  }

  /** The term that power j of b contributes to ConvSum differs from a's by the term of power k. */
  lemma ConvTermInsert(p: Polynomial, a: Polynomial, b: Polynomial, k: nat, c: Byte, n: nat, j: nat)
    requires forall i: nat :: Coeff(b, i) == if i == k then Add(Coeff(a, i), c) else Coeff(a, i)
    requires Coeff(a, k) == 0
    requires j <= n
    ensures Mul(Coeff(b, j), Coeff(p, n - j)) ==
            Add(Mul(Coeff(a, j), Coeff(p, n - j)), if j == k then Mul(c, Coeff(p, n - k)) else 0)
  {
    if j == k {
      MulZero(Coeff(p, n - j));
    }
  }

  /** Taking one more power k of q adds q_k * p_(n-k) to the partial product. */
  lemma {:induction false} ConvSumInsertAt(p: Polynomial, a: Polynomial, b: Polynomial, k: nat, c: Byte, n: nat, j: nat)
    requires forall i: nat :: Coeff(b, i) == if i == k then Add(Coeff(a, i), c) else Coeff(a, i)
    requires Coeff(a, k) == 0
    ensures ConvSum(p, b, n, j) == Add(ConvSum(p, a, n, j), if k <= j && k <= n then Mul(c, Coeff(p, n - k)) else 0)
    decreases j
  {
    if j <= n {
      ConvTermInsert(p, a, b, k, c, n, j);
    }
    if j > 0 {
      ConvSumInsertAt(p, a, b, k, c, n, j - 1);
    }
  }

  lemma ConvSumInsert(p: Polynomial, q: Polynomial, done: set<nat>, k: nat, n: nat)
    requires done <= q.terms.Keys && k in q.terms && k !in done
    ensures ProdCoeff(p, Restrict(q, done + {k}), n) ==
            Add(ProdCoeff(p, Restrict(q, done), n), if k <= n then Mul(q.terms[k], Coeff(p, n - k)) else 0)
  {
    var a := Restrict(q, done);
    var b := Restrict(q, done + {k});
    assert Coeff(a, k) == 0;
    ConvSumInsertAt(p, a, b, k, q.terms[k], n, n);
  }

  lemma ProductNone(p: Polynomial, q: Polynomial)
    ensures forall n: nat :: Coeff(Zero(), n) == ProdCoeff(p, Restrict(q, {}), n)
  {
    forall n: nat ensures Coeff(Zero(), n) == ProdCoeff(p, Restrict(q, {}), n) {
      ConvSumNone(p, q, n, n);
    }
  }

  /** One step of the product loop: add p * (q_k x^k) to the partial product. */
  lemma ProductStep(p: Polynomial, q: Polynomial, done: set<nat>, k: nat, acc: Polynomial)
    requires done <= q.terms.Keys && k in q.terms && k !in done
    requires forall n: nat :: Coeff(acc, n) == ProdCoeff(p, Restrict(q, done), n)
    ensures forall n: nat ::
      Coeff(Sum(acc, MultiplyByTerm(p, q.terms[k], k)), n) == ProdCoeff(p, Restrict(q, done + {k}), n)
  {
    var t := MultiplyByTerm(p, q.terms[k], k);
    SumCoeff(acc, t);
    forall n: nat
      ensures Coeff(Sum(acc, t), n) == ProdCoeff(p, Restrict(q, done + {k}), n)
    {
      ConvSumInsert(p, q, done, k, n);
    }
  }

  /**
   * p * q: the sum over the terms c * x^e of q of p * (c * x^e). Each
   * coefficient of the result is the convolution of the coefficients.
   */
  method MultiplyByPolynomial(p: Polynomial, q: Polynomial) returns (r: Polynomial)
    ensures forall n: nat :: Coeff(r, n) == ProdCoeff(p, q, n)
  {
    r := Zero();
    var done: set<nat> := {};
    var rest := q.terms.Keys;
    ProductNone(p, q);
    while rest != {}
      invariant rest <= q.terms.Keys && done == q.terms.Keys - rest
      invariant forall n: nat :: Coeff(r, n) == ProdCoeff(p, Restrict(q, done), n)
      decreases rest
    {
      var k :| k in rest;
      ProductStep(p, q, done, k, r);
      var t := MultiplyByTerm(p, q.terms[k], k);
      r := AddPolynomial(r, t);
      done := done + {k};
      rest := rest - {k};
    }
    assert done == q.terms.Keys;
    RestrictAll(q);
  }

  // ---------------------------------------------------------------------
  // Products with special factors.

  lemma {:induction false} ConvSumByConstant(p: Polynomial, c: Byte, n: nat, j: nat)
    ensures ConvSum(p, Monomial(c, 0), n, j) == Mul(c, Coeff(p, n))
    decreases j
  {
    if 0 < j <= n {
      MulZero(Coeff(p, n - j));
    }
    if j > 0 {
      ConvSumByConstant(p, c, n, j - 1);
    }
  }

  /** The polynomial 1 ({0: 1}) is a right identity of the product. */
  lemma ProductByOne(p: Polynomial)
    ensures forall n: nat :: ProdCoeff(p, Monomial(1, 0), n) == Coeff(p, n)
  {
    forall n: nat ensures ProdCoeff(p, Monomial(1, 0), n) == Coeff(p, n) {
      ConvSumByConstant(p, 1, n, n);
      MulOneLeft(Coeff(p, n));
    }
  }

  lemma {:induction false} ConvSumOfMonomial(c: Byte, s: nat, q: Polynomial, n: nat, j: nat)
    ensures ConvSum(Monomial(c, s), q, n, j) == if s <= n && n - s <= j then Mul(Coeff(q, n - s), c) else 0
    decreases j
  {
    if j <= n && n - j != s {
      MulZero(Coeff(q, j));
    }
    if j > 0 {
      ConvSumOfMonomial(c, s, q, n, j - 1);
    }
  }

  /** c * x^s times q: the coefficients of q move up by s and are multiplied by c. */
  lemma ProductOfMonomial(c: Byte, s: nat, q: Polynomial)
    ensures forall n: nat :: ProdCoeff(Monomial(c, s), q, n) == if n >= s then Mul(Coeff(q, n - s), c) else 0
  {
    forall n: nat
      ensures ProdCoeff(Monomial(c, s), q, n) == if n >= s then Mul(Coeff(q, n - s), c) else 0
    {
      ConvSumOfMonomial(c, s, q, n, n);
    }
  }

  /** The linear polynomial x + a. */
  function Linear(a: Byte): (l: Polynomial)
    ensures IsDegree(l, 1) && Coeff(l, 1) == 1 && Coeff(l, 0) == a
    ensures forall n: nat :: n > 1 ==> Coeff(l, n) == 0
  {
    Polynomial(map[1 := 1, 0 := a])
  }

  lemma {:induction false} ConvSumByLinear(g: Polynomial, a: Byte, n: nat, j: nat)
    requires j >= 1
    ensures ConvSum(g, Linear(a), n, j) == Add(Mul(a, Coeff(g, n)), if n >= 1 then Coeff(g, n - 1) else 0)
    decreases j
  {
    if j == 1 {
      if n >= 1 {
        MulOneLeft(Coeff(g, n - 1));
      }
    } else {
      if j <= n {
        MulZero(Coeff(g, n - j));
      }
      ConvSumByLinear(g, a, n, j - 1);
    }
  }

  lemma ProductByLinearAt(g: Polynomial, a: Byte, n: nat)
    ensures ProdCoeff(g, Linear(a), n) == Add(Mul(a, Coeff(g, n)), if n >= 1 then Coeff(g, n - 1) else 0)
  {
    if n >= 1 {
      ConvSumByLinear(g, a, n, n);
    } else {
      assert ProdCoeff(g, Linear(a), n) == Mul(Coeff(Linear(a), 0), Coeff(g, 0));
    }
  }

  /** g * (x + a): each coefficient is a times g's own plus the one below it. */
  lemma ProductByLinear(g: Polynomial, a: Byte)
    ensures ProdCoeff(g, Linear(a), 0) == Mul(a, Coeff(g, 0))
    ensures forall n: nat :: n >= 1 ==> ProdCoeff(g, Linear(a), n) == Add(Mul(a, Coeff(g, n)), Coeff(g, n - 1))
  {
    ProductByLinearAt(g, a, 0);
    forall n: nat | n >= 1
      ensures ProdCoeff(g, Linear(a), n) == Add(Mul(a, Coeff(g, n)), Coeff(g, n - 1))
    {
      ProductByLinearAt(g, a, n);
    }
  }

  /** The XOR of two sums, regrouped: (a + b) + (c + d) == (a + c) + (b + d) for coefficients. */
  lemma Regroup(s: Byte, t: Byte, a: Byte, b: Byte, c: Byte, d: Byte)
    requires s == Add(a, b) && t == Add(c, d)
    ensures Add(s, t) == Add(Add(a, c), Add(b, d))
  {
  }

  lemma {:induction false} ConvSumLinearLeft(a: Polynomial, b: Polynomial, q: Polynomial, n: nat, j: nat)
    ensures ConvSum(Sum(a, b), q, n, j) == Add(ConvSum(a, q, n, j), ConvSum(b, q, n, j))
    decreases j
  {
    var ta := if j <= n then Mul(Coeff(q, j), Coeff(a, n - j)) else 0;
    var tb := if j <= n then Mul(Coeff(q, j), Coeff(b, n - j)) else 0;
    var t := if j <= n then Mul(Coeff(q, j), Coeff(Sum(a, b), n - j)) else 0;
    if j <= n {
      SumCoeff(a, b);
      DistR(Coeff(q, j), Coeff(a, n - j), Coeff(b, n - j));
    }
    if j > 0 {
      ConvSumLinearLeft(a, b, q, n, j - 1);
      Regroup(ConvSum(Sum(a, b), q, n, j - 1), t, ConvSum(a, q, n, j - 1), ConvSum(b, q, n, j - 1), ta, tb);
    }
  }

  /** The product distributes over a sum in its left factor. */
  lemma ProductOfSum(a: Polynomial, b: Polynomial, q: Polynomial)
    ensures forall n: nat :: ProdCoeff(Sum(a, b), q, n) == Add(ProdCoeff(a, q, n), ProdCoeff(b, q, n))
  {
    forall n: nat ensures ProdCoeff(Sum(a, b), q, n) == Add(ProdCoeff(a, q, n), ProdCoeff(b, q, n)) {
      ConvSumLinearLeft(a, b, q, n, n);
    }
  }

  /** The sum of q_i * p_(n-i) over the powers j <= i <= n of q: ConvSum taken from the other end. */
  ghost function ConvTail(p: Polynomial, q: Polynomial, n: nat, j: nat): Byte
    requires j <= n
    decreases n - j
  {
    var t := Mul(Coeff(q, j), Coeff(p, n - j));
    if j == n then t else Add(t, ConvTail(p, q, n, j + 1))
  }

  /** Summing p_i * q_(n-i) for i <= j is summing q_i * p_(n-i) for i >= n - j. */
  lemma {:induction false} ConvSumReversed(p: Polynomial, q: Polynomial, n: nat, j: nat)
    requires j <= n
    ensures ConvSum(q, p, n, j) == ConvTail(p, q, n, n - j)
    decreases j
  {
    MulComm(Coeff(p, j), Coeff(q, n - j));
    if j > 0 {
      ConvSumReversed(p, q, n, j - 1);
    }
  }

  /** The terms below j and the terms from j on make up the whole of ConvSum. */
  lemma {:induction false} ConvSplit(p: Polynomial, q: Polynomial, n: nat, j: nat)
    requires j <= n
    ensures Add(if j == 0 then 0 else ConvSum(p, q, n, j - 1), ConvTail(p, q, n, j)) == ConvSum(p, q, n, n)
    decreases n - j
  {
    if j < n {
      ConvSplit(p, q, n, j + 1);
    }
  }

  /** The product is commutative: p * q and q * p have the same coefficients. */
  lemma ProductComm(p: Polynomial, q: Polynomial)
    ensures forall n: nat :: ProdCoeff(p, q, n) == ProdCoeff(q, p, n)
  {
    forall n: nat ensures ProdCoeff(p, q, n) == ProdCoeff(q, p, n) {
      ConvSumReversed(p, q, n, n);
      ConvSplit(p, q, n, 0);
    }
  }

  /** The product distributes over a sum in its right factor. */
  lemma ProductOfSumRight(p: Polynomial, a: Polynomial, b: Polynomial)
    ensures forall n: nat :: ProdCoeff(p, Sum(a, b), n) == Add(ProdCoeff(p, a, n), ProdCoeff(p, b, n))
  {
    ProductComm(p, Sum(a, b));
    ProductComm(p, a);
    ProductComm(p, b);
    ProductOfSum(a, b, p);
  }

  lemma {:induction false} ConvSumOfZero(q: Polynomial, n: nat, j: nat)
    ensures ConvSum(Zero(), q, n, j) == 0
    decreases j
  {
    MulZero(Coeff(q, j));
    if j > 0 {
      ConvSumOfZero(q, n, j - 1);
    }
  }

  // ---------------------------------------------------------------------
  // Division.

  /**
   * (c1 * x^p1) / (c2 * x^p2) == (c1 / c2) * x^(p1 - p2), for p1 >= p2. The
   * encoder's field division fails on a zero divisor; here that is an error value.
   */
  function DivideTerms(c1: Byte, p1: nat, c2: Byte, p2: nat): (r: Result<Polynomial>)
    requires p2 <= p1
    ensures r.DivisionByZero? <==> c2 == 0
    ensures r.Ok? ==> r.value == Monomial(Div(c1, c2), p1 - p2) && Mul(Div(c1, c2), c2) == c1
  {
    if c2 == 0 then DivisionByZero
    else
      DivCancel(c1, c2);
      var q := AddTerm(Zero(), Div(c1, c2), p1 - p2);
      assert q.terms == map[p1 - p2 := Div(c1, c2)];
      Ok(q)
  }

  /** num == quo * den + rem, coefficient by coefficient. */
  ghost predicate IsDivision(num: Polynomial, den: Polynomial, quo: Polynomial, rem: Polynomial)
  {
    forall n: nat :: Coeff(num, n) == Add(ProdCoeff(quo, den, n), Coeff(rem, n))
  }

  /** Before the first step, the quotient is zero and the remainder is the numerator. */
  lemma DivisionStart(num: Polynomial, den: Polynomial)
    ensures IsDivision(num, den, Zero(), num)
  {
    forall n: nat ensures ProdCoeff(Zero(), den, n) == 0 {
      ConvSumOfZero(den, n, n);
    }
  }

  lemma Rebalance(x: Byte, a: Byte, b: Byte, y: Byte, z: Byte)
    requires x == Add(a, y) && z == Sub(y, b)
    ensures x == Add(Add(a, b), z)
  {
  }

  /** Subtracting quo' * den from the remainder and adding quo' to the quotient keeps the division exact. */
  lemma DivisionStep(num: Polynomial, den: Polynomial, quo: Polynomial, rem: Polynomial, step: Polynomial, next: Polynomial)
    requires IsDivision(num, den, quo, rem)
    requires forall n: nat :: Coeff(next, n) == Sub(Coeff(rem, n), ProdCoeff(step, den, n))
    ensures IsDivision(num, den, Sum(quo, step), next)
  {
    ProductOfSum(quo, step, den);
    forall n: nat ensures Coeff(num, n) == Add(ProdCoeff(Sum(quo, step), den, n), Coeff(next, n)) {
      Rebalance(Coeff(num, n), ProdCoeff(quo, den, n), ProdCoeff(step, den, n), Coeff(rem, n), Coeff(next, n));
    }
  }

  /** The top coefficients of (c * x^s) * den, from the power s + deg(den) up. */
  lemma QuotientTermProduct(c: Byte, s: nat, den: Polynomial, dd: nat, n: nat)
    requires IsDegree(den, dd) && n >= s + dd
    ensures ProdCoeff(Monomial(c, s), den, n) == if n == s + dd then Mul(Coeff(den, dd), c) else 0
  {
    ConvSumOfMonomial(c, s, den, n, n);
    if n > s + dd {
      assert Coeff(den, n - s) == 0;
      MulZero(c);
    }
  }

  /**
   * One step of the long division: subtracting (nc / dc) * x^(nd - dd) * den
   * clears the leading coefficient nc of the remainder, so every power from nd
   * up is 0 and the remainder's degree drops below nd unless it is zero.
   */
  lemma RemainderStep(rem: Polynomial, den: Polynomial, nd: nat, dd: nat, quo: Polynomial, next: Polynomial)
    requires IsDegree(rem, nd) && IsDegree(den, dd) && Coeff(den, dd) != 0 && dd <= nd
    requires quo == Monomial(Div(Coeff(rem, nd), Coeff(den, dd)), nd - dd)
    requires forall n: nat :: Coeff(next, n) == Sub(Coeff(rem, n), ProdCoeff(quo, den, n))
    ensures forall n: nat :: n >= nd ==> Coeff(next, n) == 0
  {
    var c := Div(Coeff(rem, nd), Coeff(den, dd));
    DivCancel(Coeff(rem, nd), Coeff(den, dd));
    MulComm(Coeff(den, dd), c);
    forall n: nat | n >= nd ensures Coeff(next, n) == 0 {
      QuotientTermProduct(c, nd - dd, den, dd, n);
    }
  }

  /** rem - quo * den, as one step of the long division computes it. */
  method SubtractMultiple(rem: Polynomial, quo: Polynomial, den: Polynomial) returns (next: Polynomial)
    ensures forall n: nat :: Coeff(next, n) == Sub(Coeff(rem, n), ProdCoeff(quo, den, n))
  {
    var t := MultiplyByPolynomial(quo, den);
    next := SubtractPolynomial(rem, t);
  }

  /** A polynomial whose coefficients from power d up are all 0 is zero or has degree below d. */
  lemma DegreeBelow(p: Polynomial, d: nat)
    requires forall n: nat :: n >= d ==> Coeff(p, n) == 0
    ensures IsZero(p) || Deg(p) < d
  {
    LeadingCoeffZero(p);
  }

  /** A quotient with only zero coefficients contributes nothing to the product. */
  lemma {:induction false} ConvSumOfZeroCoeffs(a: Polynomial, q: Polynomial, n: nat, j: nat)
    requires IsZero(a)
    ensures ConvSum(a, q, n, j) == 0
    decreases j
  {
    MulZero(Coeff(q, j));
    if j > 0 {
      ConvSumOfZeroCoeffs(a, q, n, j - 1);
    }
  }

  /**
   * For a of degree e and b of degree db, the sum for the power e + db has
   * one term that can be non-zero: b's leading coefficient times a's.
   */
  lemma {:induction false} LeadingProduct(a: Polynomial, b: Polynomial, e: nat, db: nat, j: nat)
    requires IsDegree(a, e) && IsDegree(b, db)
    ensures ConvSum(a, b, e + db, j) == if j >= db then Mul(Coeff(b, db), Coeff(a, e)) else 0
    decreases j
  {
    var n := e + db;
    if j <= n && j != db {
      if j < db {
        assert Coeff(a, n - j) == 0;
      } else {
        assert Coeff(b, j) == 0;
      }
      MulZero(Coeff(b, j));
      MulZero(Coeff(a, n - j));
    }
    if j > 0 {
      LeadingProduct(a, b, e, db, j - 1);
    }
  }

  /** A remainder that is zero or of lower degree than den has every coefficient from Deg(den) up equal to 0. */
  lemma RemainderHigh(rem: Polynomial, den: Polynomial)
    requires IsZero(rem) || Deg(rem) < Deg(den)
    ensures forall n: nat :: n >= Deg(den) ==> Coeff(rem, n) == 0
  {
    forall n: nat | n >= Deg(den) ensures Coeff(rem, n) == 0 {
      if !IsZero(rem) {
        CoeffAboveDegree(rem, n);
      }
    }
  }

  /** Two divisions of num by den: the difference of the quotients times den is the difference of the remainders. */
  lemma DivisionDifference(num: Polynomial, den: Polynomial, q1: Polynomial, r1: Polynomial, q2: Polynomial, r2: Polynomial)
    requires IsDivision(num, den, q1, r1) && IsDivision(num, den, q2, r2)
    ensures forall n: nat :: ProdCoeff(Sum(q1, q2), den, n) == Coeff(Sum(r1, r2), n)
  {
    SumCoeff(r1, r2);
    ProductOfSum(q1, q2, den);
    forall n: nat ensures ProdCoeff(Sum(q1, q2), den, n) == Coeff(Sum(r1, r2), n) {
      assert Coeff(num, n) == Add(ProdCoeff(q1, den, n), Coeff(r1, n));
      assert Coeff(num, n) == Add(ProdCoeff(q2, den, n), Coeff(r2, n));
    }
  }

  /**
   * A product a * den, for a non-zero den, whose coefficients from Deg(den)
   * up are all 0 has a zero factor a: otherwise the coefficient at
   * Deg(a) + Deg(den) is the product of two non-zero leading coefficients.
   */
  lemma LowProductZero(a: Polynomial, den: Polynomial, d: Polynomial)
    requires !IsZero(den)
    requires forall n: nat :: ProdCoeff(a, den, n) == Coeff(d, n)
    requires forall n: nat :: n >= Deg(den) ==> Coeff(d, n) == 0
    ensures IsZero(a)
  {
    if !IsZero(a) {
      var e := Deg(a);
      var db := Deg(den);
      LeadingCoeffZero(a);
      LeadingCoeffZero(den);
      var top := ProdCoeff(a, den, e + db);
      var high := Coeff(d, e + db);
      LeadingProduct(a, den, e, db, e + db);
      NoZeroDivisors(Coeff(den, db), Coeff(a, e));
      assert false;
    }
  }

  /**
   * The remainder is unique: two divisions of num by den whose remainders
   * are zero or of lower degree than den have remainders with the same
   * coefficients.
   */
  lemma RemainderUnique(num: Polynomial, den: Polynomial, q1: Polynomial, r1: Polynomial, q2: Polynomial, r2: Polynomial)
    requires IsDivision(num, den, q1, r1) && IsDivision(num, den, q2, r2)
    requires IsZero(r1) || Deg(r1) < Deg(den)
    requires IsZero(r2) || Deg(r2) < Deg(den)
    ensures SameCoefficients(r1, r2)
  {
    if IsZero(den) {
      LeadingCoeffZero(den);
    } else {
      var dr := Sum(r1, r2);
      SumCoeff(r1, r2);
      RemainderHigh(r1, den);
      RemainderHigh(r2, den);
      DivisionDifference(num, den, q1, r1, q2, r2);
      LowProductZero(Sum(q1, q2), den, dr);
      forall n: nat ensures Coeff(r1, n) == Coeff(r2, n) {
        ConvSumOfZeroCoeffs(Sum(q1, q2), den, n, n);
      }
    }
  }

  /**
   * Dividing by a polynomial with the same coefficients as num leaves a
   * zero remainder: num == 1 * den + 0 is a division, and the remainder is unique.
   */
  lemma RemainderOfSame(num: Polynomial, den: Polynomial, quo: Polynomial, rem: Polynomial)
    requires SameCoefficients(num, den)
    requires IsDivision(num, den, quo, rem) && (IsZero(rem) || Deg(rem) < Deg(den))
    ensures IsZero(rem)
  {
    ProductOfMonomial(1, 0, den);
    forall n: nat ensures Coeff(num, n) == Add(ProdCoeff(Monomial(1, 0), den, n), Coeff(Zero(), n)) {
      MulOneRight(Coeff(den, n));
    }
    RemainderUnique(num, den, quo, rem, Monomial(1, 0), Zero());
  }

  /**
   * The remainder of num divided by den, by long division: while the
   * remainder's degree is at least den's, subtract the multiple of den that
   * cancels its leading term; stop early once the remainder is zero. A zero
   * den is a division by zero.
   */
  method Remainder(num: Polynomial, den: Polynomial) returns (r: Result<Polynomial>)
    ensures r.DivisionByZero? <==> IsZero(den)
    ensures r.Ok? ==> IsZero(r.value) || Deg(r.value) < Deg(den)
    ensures r.Ok? ==> exists quo :: IsDivision(num, den, quo, r.value)
    ensures Deg(num) < Deg(den) ==> r == Ok(num)
    ensures r.Ok? && SameCoefficients(num, den) ==> IsZero(r.value)
  {
    var rem := num;
    var nd := Degree(rem);
    var nc := Coeff(rem, nd);
    var dd := Degree(den);
    var dc := Coeff(den, dd);
    LeadingCoeffZero(den);
    ghost var quo := Zero();
    DivisionStart(num, den);
    while nd >= dd
      invariant nd == Deg(rem) && nc == Coeff(rem, nd)
      invariant IsDivision(num, den, quo, rem)
      invariant Deg(num) < Deg(den) ==> rem == num
      decreases nd
    {
      var q := DivideTerms(nc, nd, dc, dd);
      if q.DivisionByZero? {
        return DivisionByZero;
      }
      var next := SubtractMultiple(rem, q.value, den);
      RemainderStep(rem, den, nd, dd, q.value, next);
      DegreeBelow(next, nd);
      DivisionStep(num, den, quo, rem, q.value, next);
      quo := Sum(quo, q.value);
      ghost var before := nd;
      rem := next;
      nd := Degree(rem);
      nc := Coeff(rem, nd);
      if nc == 0 {
        LeadingCoeffZero(rem);
        if SameCoefficients(num, den) {
          RemainderOfSame(num, den, quo, rem);
        }
        return Ok(rem);
      }
      assert nd < before;
    }
    if SameCoefficients(num, den) {
      RemainderOfSame(num, den, quo, rem);
    }
    return Ok(rem);
  }
}
