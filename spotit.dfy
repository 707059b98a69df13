/**
 * The finite projective plane behind a Spot it! deck. Points and lines are
 * triples of integers taken modulo a prime; two triples name the same point
 * when their cross product vanishes modulo the prime, and a point lies on a
 * line when their dot product does. Each line becomes a card listing the
 * points on it.
 */
module SpotIt {

  /** A triple of coordinates: a point or a line of the plane. */
  datatype Triple = Triple(x: int, y: int, z: int)

  const Origin := Triple(0, 0, 0)

  // ---------------------------------------------------------------------
  // Divisibility.

  /** m divides a. Python's and Dafny's % agree on whether a remainder is 0. */
  predicate Divides(m: int, a: int)
    requires m != 0
  {
    a % m == 0
  }

  lemma MultipleDivides(k: int, m: int)
    requires m != 0
    ensures Divides(m, k * m)
  {
  }

  /** m divides a exactly when it divides -a. */
  lemma DividesNeg(m: int, a: int)
    requires m != 0
    ensures Divides(m, a) <==> Divides(m, -a)
  {
    if Divides(m, a) {
      assert -a == (-(a / m)) * m;
      MultipleDivides(-(a / m), m);
    }
    if Divides(m, -a) {
      assert a == (-((-a) / m)) * m;
      MultipleDivides(-((-a) / m), m);
    }
  }

  // ---------------------------------------------------------------------
  // Equivalence and incidence.

  /** The cross product of two triples, before reduction. */
  function Cross(p: Triple, q: Triple): Triple
  {
    Triple(p.y * q.z - p.z * q.y, p.z * q.x - p.x * q.z, p.x * q.y - p.y * q.x)
  }

  /** p and q name the same point: every component of their cross product is 0 modulo mod. */
  predicate Equivalent(p: Triple, q: Triple, mod: int)
    requires mod != 0
  {
    var c := Cross(p, q);
    c.x % mod == 0 && c.y % mod == 0 && c.z % mod == 0
  }

  /** Every triple is equivalent to itself. */
  lemma EquivalentReflexive(p: Triple, mod: int)
    requires mod != 0
    ensures Equivalent(p, p, mod)
  {
    assert Cross(p, p) == Origin;
  }

  /** Equivalence does not depend on the order of its arguments. */
  lemma EquivalentSymmetric(p: Triple, q: Triple, mod: int)
    requires mod != 0
    ensures Equivalent(p, q, mod) <==> Equivalent(q, p, mod)
  {
    var c := Cross(p, q);
    var d := Cross(q, p);
    assert d == Triple(-c.x, -c.y, -c.z);
    DividesNeg(mod, c.x);
    DividesNeg(mod, c.y);
    DividesNeg(mod, c.z);
  }

  /** s * p, coordinate by coordinate. */
  function Scale(s: int, p: Triple): Triple
  {
    Triple(s * p.x, s * p.y, s * p.z)
  }

  /** A triple and any multiple of it name the same point. */
  lemma EquivalentScale(p: Triple, s: int, mod: int)
    requires mod != 0
    ensures Equivalent(p, Scale(s, p), mod)
  {
    assert Cross(p, Scale(s, p)) == Origin;
  }

  /** The dot product of a point and a line. */
  function Dot(p: Triple, l: Triple): int
  {
    p.x * l.x + p.y * l.y + p.z * l.z
  }

  /** Point p lies on line l: their dot product is 0 modulo mod. */
  predicate Incident(p: Triple, l: Triple, mod: int)
    requires mod != 0
  {
    Dot(p, l) % mod == 0
  }

  /** Points and lines are dual: p lies on l exactly when l, read as a point, lies on p. */
  lemma IncidentDual(p: Triple, l: Triple, mod: int)
    requires mod != 0
    ensures Incident(p, l, mod) <==> Incident(l, p, mod)
  {
    assert Dot(p, l) == Dot(l, p);
  }

  /** Incidence is a property of the point, not of the triple chosen for it. */
  lemma IncidentScale(p: Triple, l: Triple, s: int, mod: int)
    requires mod != 0 && Incident(p, l, mod)
    ensures Incident(Scale(s, p), l, mod)
  {
    var d := Dot(p, l);
    assert Dot(Scale(s, p), l) == s * d;
    assert d == (d / mod) * mod;
    assert s * d == (s * (d / mod)) * mod;
    MultipleDivides(s * (d / mod), mod);
  }
}

module SpotItDeck {
  import opened SpotIt

  /** Every coordinate lies in [0, mod). */
  predicate InRange(p: Triple, mod: int)
  {
    0 <= p.x < mod && 0 <= p.y < mod && 0 <= p.z < mod
  }

  /** p comes before q in the order in which the nested loops enumerate triples. */
  predicate LexLess(p: Triple, q: Triple)
  {
    p.x < q.x || (p.x == q.x && (p.y < q.y || (p.y == q.y && p.z < q.z)))
  }

  predicate LexSorted(s: seq<Triple>)
  {
    forall i, j :: 0 <= i < j < |s| ==> LexLess(s[i], s[j])
  }

  lemma LexTransitive(p: Triple, q: Triple, r: Triple)
    requires LexLess(p, q) && LexLess(q, r)
    ensures LexLess(p, r)
  {
  }

  /** In a sorted sequence, whatever occurs before position idx comes before s[idx]. */
  lemma SortedPrefix(s: seq<Triple>, idx: int, u: Triple)
    requires LexSorted(s) && 0 <= idx < |s| && u in s[..idx]
    ensures LexLess(u, s[idx])
  {
    var t :| 0 <= t < idx && s[t] == u;
  }

  /**
   * Enumerates every triple with coordinates in [0, mod), in lexicographic
   * order, by three nested loops.
   */
  method AllTriples(mod: int) returns (all: seq<Triple>)
    ensures forall p :: p in all <==> InRange(p, mod)
    ensures LexSorted(all)
  {
    all := [];
    var n1 := 0;
    while n1 < mod
      invariant 0 <= n1 && (n1 <= mod || n1 == 0)
      invariant forall p :: p in all <==> InRange(p, mod) && p.x < n1
      invariant LexSorted(all)
    {
      var n2 := 0;
      while n2 < mod
        invariant 0 <= n2 <= mod
        invariant forall p :: p in all <==> InRange(p, mod) && (p.x < n1 || (p.x == n1 && p.y < n2))
        invariant LexSorted(all)
      {
        var n3 := 0;
        while n3 < mod
          invariant 0 <= n3 <= mod
          invariant forall p :: p in all <==> InRange(p, mod) && LexLess(p, Triple(n1, n2, n3))
          invariant LexSorted(all)
        {
          all := all + [Triple(n1, n2, n3)];
          n3 := n3 + 1;
        }
        n2 := n2 + 1;
      }
      n1 := n1 + 1;
    }
  }

  /** The inner loop of the filter: no point kept so far is equivalent to the candidate. */
  method IsNew(points: seq<Triple>, point: Triple, mod: int) returns (unique: bool)
    requires mod != 0
    ensures unique <==> forall j :: 0 <= j < |points| ==> !Equivalent(points[j], point, mod)
  {
    unique := true;
    var jdx := 0;
    while jdx < |points|
      invariant 0 <= jdx <= |points|
      invariant unique <==> forall j :: 0 <= j < jdx ==> !Equivalent(points[j], point, mod)
    {
      if Equivalent(points[jdx], point, mod) {
        unique := false;
      }
      jdx := jdx + 1;
    }
  }

  /** Every point kept from the first idx triples comes before triple idx. */
  lemma PrefixBefore(all: seq<Triple>, idx: int, points: seq<Triple>)
    requires LexSorted(all) && 0 <= idx < |all|
    requires forall i :: 0 <= i < |points| ==> points[i] in all[..idx]
    ensures forall i :: 0 <= i < |points| ==> LexLess(points[i], all[idx])
  {
    forall i | 0 <= i < |points| ensures LexLess(points[i], all[idx]) {
      SortedPrefix(all, idx, points[i]);
    }
  }

  /** No two of the points are equivalent. */
  predicate Distinct(points: seq<Triple>, mod: int)
    requires mod != 0
  {
    forall i, j :: 0 <= i < j < |points| ==> !Equivalent(points[i], points[j], mod)
  }

  /** q was kept, or a point kept before it stands for it. */
  predicate Represented(points: seq<Triple>, q: Triple, mod: int)
    requires mod != 0
  {
    q in points || exists i :: 0 <= i < |points| && LexLess(points[i], q) && Equivalent(points[i], q, mod)
  }

  /** What the filter loop has established after the first idx enumerated triples. */
  predicate Filtered(all: seq<Triple>, idx: int, points: seq<Triple>, mod: int)
    requires mod != 0
  {
    && 0 <= idx <= |all|
    && (forall i :: 0 <= i < |points| ==> points[i] in all[..idx] && points[i] != Origin)
    && LexSorted(points)
    && Distinct(points, mod)
    && (forall t :: 0 <= t < idx && all[t] != Origin ==> Represented(points, all[t], mod))
  }

  /** Keeping a further point leaves every triple represented. */
  lemma RepresentedGrow(points: seq<Triple>, x: Triple, q: Triple, mod: int)
    requires mod != 0 && Represented(points, q, mod)
    ensures Represented(points + [x], q, mod)
  {
    if q !in points {
      var i :| 0 <= i < |points| && LexLess(points[i], q) && Equivalent(points[i], q, mod);
      assert (points + [x])[i] == points[i];
    }
  }

  /** One round of the filter loop: triple idx is kept exactly when it is non-zero and new. */
  lemma FilterStep(all: seq<Triple>, idx: int, points: seq<Triple>, unique: bool, mod: int)
    requires mod > 0 && LexSorted(all) && idx < |all|
    requires Filtered(all, idx, points, mod)
    requires all[idx] != Origin ==> (unique <==> forall j :: 0 <= j < |points| ==> !Equivalent(points[j], all[idx], mod))
    ensures Filtered(all, idx + 1, if all[idx] != Origin && unique then points + [all[idx]] else points, mod)
  {
    var point := all[idx];
    PrefixBefore(all, idx, points);
    assert all[..idx + 1] == all[..idx] + [point];
    if point != Origin && unique {
      var next := points + [point];
      forall t | 0 <= t < idx + 1 && all[t] != Origin ensures Represented(next, all[t], mod) {
        if t < idx {
          RepresentedGrow(points, point, all[t], mod);
        } else {
          assert next[|points|] == point;
        }
      }
    } else if point != Origin {
      var j :| 0 <= j < |points| && Equivalent(points[j], point, mod);
      assert Represented(points, point, mod);
    }
  }

  /**
   * The points of the projective plane over the integers modulo mod: every
   * non-zero triple with coordinates in [0, mod), in enumeration order,
   * except those equivalent to a point kept before them.
   */
  method GenerateAllPoints(mod: int) returns (points: seq<Triple>)
    ensures mod <= 0 ==> points == []
    ensures forall p :: p in points ==> InRange(p, mod) && p != Origin
    ensures LexSorted(points)
    ensures mod > 0 ==> Distinct(points, mod)
    ensures mod > 0 ==> forall p :: InRange(p, mod) && p != Origin ==> Represented(points, p, mod)
  {
    var all := AllTriples(mod);
    if |all| > 0 {
      assert all[0] in all;
    }
    points := [];
    var idx := 0;
    while idx < |all|
      invariant 0 <= idx <= |all|
      invariant |all| > 0 ==> mod > 0
      invariant mod <= 0 ==> points == []
      invariant mod > 0 ==> Filtered(all, idx, points, mod)
    {
      var point := all[idx];
      ghost var before := points;
      if point != Origin {
        var unique := IsNew(points, point, mod);
        if unique {
          points := points + [point];
        }
        FilterStep(all, idx, before, unique, mod);
      } else {
        FilterStep(all, idx, before, false, mod);
      }
      idx := idx + 1;
    }
    assert all[..idx] == all;
  }

  predicate Increasing(s: seq<nat>)
  {
    forall i, j :: 0 <= i < j < |s| ==> s[i] < s[j]
  }

  /**
   * One card per line, in the order of the lines: card i lists, in
   * ascending order, the indices of the points that lie on line i.
   */
  method CreateCards(points: seq<Triple>, lines: seq<Triple>, mod: int) returns (deck: seq<seq<nat>>)
    requires mod != 0
    ensures |deck| == |lines|
    ensures forall i :: 0 <= i < |lines| ==> Increasing(deck[i])
    ensures forall i, j :: 0 <= i < |lines| ==> (j in deck[i] <==> 0 <= j < |points| && Incident(points[j], lines[i], mod))
  {
    deck := [];
    var ldx := 0;
    while ldx < |lines|
      invariant 0 <= ldx <= |lines|
      invariant |deck| == ldx
      invariant forall i :: 0 <= i < ldx ==> Increasing(deck[i])
      invariant forall i, j :: 0 <= i < ldx ==> (j in deck[i] <==> 0 <= j < |points| && Incident(points[j], lines[i], mod))
    {
      var line := lines[ldx];
      var valid: seq<nat> := [];
      var pdx := 0;
      while pdx < |points|
        invariant 0 <= pdx <= |points|
        invariant Increasing(valid)
        invariant forall i :: 0 <= i < |valid| ==> valid[i] < pdx
        invariant forall j :: j in valid <==> 0 <= j < pdx && Incident(points[j], line, mod)
      {
        if Incident(points[pdx], line, mod) {
          valid := valid + [pdx];
        }
        pdx := pdx + 1;
      }
      deck := deck + [valid];
      ldx := ldx + 1;
    }
  }
}
