/**
 * Sums of the values of a map: the total of a tally of counts, and of a map
 * to reals (a probability distribution once normalised).
 */
module Tally {
  /** The sum of the counts. */
  ghost function Total<K>(hist: map<K, nat>): nat
    decreases |hist.Keys|
  {
    if hist.Keys == {} then 0
    else
      var d :| d in hist;
      hist[d] + Total(hist - {d})
  }

  /** Total does not depend on which key it takes first. */
  lemma {:induction false} TotalRemove<K>(hist: map<K, nat>, d: K)
    requires d in hist
    ensures Total(hist) == hist[d] + Total(hist - {d})
    decreases |hist.Keys|
  {
    assert hist.Keys != {};
    var e :| e in hist && Total(hist) == hist[e] + Total(hist - {e});
    if e != d {
      TotalRemove(hist - {e}, d);
      TotalRemove(hist - {d}, e);
      assert hist - {e} - {d} == hist - {d} - {e};
    }
  }

  /** hist with one more occurrence of d counted. */
  function Bump<K>(hist: map<K, nat>, d: K): (h: map<K, nat>)
    ensures h.Keys == hist.Keys + {d}
    ensures h[d] == (if d in hist then hist[d] else 0) + 1
    ensures forall e :: e in hist && e != d ==> h[e] == hist[e]
  {
    hist[d := (if d in hist then hist[d] else 0) + 1]
  }

  /** Adding one to a count, or starting a count at one, adds one to the total. */
  lemma TotalBump<K>(hist: map<K, nat>, d: K)
    ensures Total(Bump(hist, d)) == Total(hist) + 1
  {
    var hist' := Bump(hist, d);
    assert hist' - {d} == hist - {d};
    TotalRemove(hist', d);
    if d in hist {
      TotalRemove(hist, d);
    } else {
      assert hist - {d} == hist;
    }
  }

  /** A tally with a positive count has a positive total. */
  lemma {:induction false} TotalPositive<K>(hist: map<K, nat>, d: K)
    requires d in hist && hist[d] > 0
    ensures Total(hist) > 0
  {
    TotalRemove(hist, d);
  }

  /** The sum of the values of a map to reals. */
  ghost function RealTotal<K>(m: map<K, real>): real
    decreases |m.Keys|
  {
    if m.Keys == {} then 0.0
    else
      var d :| d in m;
      m[d] + RealTotal(m - {d})
  }

  /** RealTotal does not depend on which key it takes first. */
  lemma {:induction false} RealTotalRemove<K>(m: map<K, real>, d: K)
    requires d in m
    ensures RealTotal(m) == m[d] + RealTotal(m - {d})
    decreases |m.Keys|
  {
    assert m.Keys != {};
    var e :| e in m && RealTotal(m) == m[e] + RealTotal(m - {e});
    if e != d {
      RealTotalRemove(m - {e}, d);
      RealTotalRemove(m - {d}, e);
      assert m - {e} - {d} == m - {d} - {e};
    }
  }

  /** Every count divided by t. */
  ghost function Scaled<K>(hist: map<K, nat>, t: real): (m: map<K, real>)
    requires t != 0.0
    ensures m.Keys == hist.Keys
    ensures forall k :: k in m ==> m[k] == hist[k] as real / t
  {
    map k | k in hist :: hist[k] as real / t
  }

  /** Dividing every count by t divides the total by t. */
  lemma {:induction false} ScaledTotal<K>(hist: map<K, nat>, t: real)
    requires t != 0.0
    ensures RealTotal(Scaled(hist, t)) == Total(hist) as real / t
    decreases |hist.Keys|
  {
    var m := Scaled(hist, t);
    if hist.Keys != {} {
      var d :| d in hist;
      var rest := hist - {d};
      TotalRemove(hist, d);
      RealTotalRemove(m, d);
      assert m - {d} == Scaled(rest, t);
      ScaledTotal(rest, t);
      DivideSum(hist[d] as real, Total(rest) as real, t);
    } else {
      assert m.Keys == {};
    }
  }

  lemma DivideSum(a: real, b: real, t: real)
    requires t != 0.0
    ensures a / t + b / t == (a + b) / t
  {
  }
}
