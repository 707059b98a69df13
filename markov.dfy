/**
 * The Markov chain of a sequence of data bins: for every state, the `order`
 * bins that come before a position, the probability of each bin that comes
 * next. The chain is built by counting every transition in one pass over
 * the data and then dividing each count by the total of its state.
 */
module Markov {
  import opened Tally

  /** For each state, the number of times each bin followed it. */
  type Counts<T> = map<seq<T>, map<T, nat>>

  /** For each state, the probability of each bin that follows it. */
  type Chain<T> = map<seq<T>, map<T, real>>

  // ---------------------------------------------------------------------
  // What is counted.

  /** The state before position idx: the order bins data[idx - order], ..., data[idx - 1]. */
  function Window<T(==,!new)>(data: seq<T>, order: nat, idx: nat): seq<T>
    requires order <= idx <= |data|
  {
    data[idx - order..idx]
  }

  /** The number of positions idx in [order, hi) whose state is key. */
  ghost function Seen<T(!new)>(data: seq<T>, order: nat, key: seq<T>, hi: nat): nat
    requires hi <= |data|
    decreases hi
  {
    if hi <= order then 0
    else Seen(data, order, key, hi - 1) + (if Window(data, order, hi - 1) == key then 1 else 0)
  }

  /** The number of positions idx in [order, hi) whose state is key and whose bin is next. */
  ghost function Follows<T(!new)>(data: seq<T>, order: nat, key: seq<T>, next: T, hi: nat): nat
    requires hi <= |data|
    decreases hi
  {
    if hi <= order then 0
    else Follows(data, order, key, next, hi - 1) + (if Window(data, order, hi - 1) == key && data[hi - 1] == next then 1 else 0)
  }

  /** The number of transitions in the data: one per position from order on. */
  function Transitions(n: nat, order: nat): nat
  {
    if n > order then n - order else 0
  }

  lemma {:induction false} FollowsAtMostSeen<T(!new)>(data: seq<T>, order: nat, key: seq<T>, next: T, hi: nat)
    requires hi <= |data|
    ensures Follows(data, order, key, next, hi) <= Seen(data, order, key, hi)
    decreases hi
  {
    if hi > order {
      FollowsAtMostSeen(data, order, key, next, hi - 1);
    }
  }

  /** A state that occurs before no position in [order, hi) is seen zero times there. */
  lemma {:induction false} SeenNone<T(!new)>(data: seq<T>, order: nat, key: seq<T>, hi: nat)
    requires hi <= |data|
    requires forall i :: order <= i < hi ==> Window(data, order, i) != key
    ensures Seen(data, order, key, hi) == 0
    decreases hi
  {
    if hi > order {
      SeenNone(data, order, key, hi - 1);
    }
  }

  // ---------------------------------------------------------------------
  // The counting pass.

  /** The total of each state's counts. */
  ghost function RowTotals<T(!new)>(counts: Counts<T>): map<seq<T>, nat>
  {
    map key | key in counts :: Total(counts[key])
  }

  /** The states of counts are those before the positions in [order, hi). */
  ghost predicate KeysAre<T(!new)>(data: seq<T>, order: nat, counts: Counts<T>, hi: nat)
    requires hi <= |data|
  {
    forall key :: key in counts <==> exists i :: order <= i < hi && Window(data, order, i) == key
  }

  /** Each state's counts are the numbers of times each bin followed it before hi. */
  ghost predicate RowsAre<T(!new)>(data: seq<T>, order: nat, counts: Counts<T>, hi: nat)
    requires hi <= |data|
  {
    && (forall key, next :: key in counts ==> (next in counts[key] <==> Follows(data, order, key, next, hi) > 0))
    && (forall key, next :: key in counts && next in counts[key] ==> counts[key][next] == Follows(data, order, key, next, hi))
  }

  /** Each state's counts add up to the number of times it occurred before hi. */
  ghost predicate SeenAre<T(!new)>(data: seq<T>, order: nat, counts: Counts<T>, hi: nat)
    requires hi <= |data|
  {
    forall key :: key in counts ==> Total(counts[key]) == Seen(data, order, key, hi)
  }

  /** counts holds every transition at the positions in [order, hi). */
  ghost predicate CountedTo<T(!new)>(data: seq<T>, order: nat, counts: Counts<T>, hi: nat)
    requires hi <= |data|
  {
    && KeysAre(data, order, counts, hi)
    && RowsAre(data, order, counts, hi)
    && SeenAre(data, order, counts, hi)
    && Total(RowTotals(counts)) == Transitions(hi, order)
  }

  /** Nothing is counted before position order. */
  lemma CountedStart<T(!new)>(data: seq<T>, order: nat, hi: nat)
    requires hi <= |data| && hi <= order
    ensures CountedTo(data, order, map[], hi)
  {
    var empty: Counts<T> := map[];
    assert RowTotals(empty).Keys == {};
  }

  /** The row of a state, empty for a state not yet seen (the chain is a defaultdict). */
  function Row<T(==,!new)>(counts: Counts<T>, key: seq<T>): (row: map<T, nat>)
    ensures key in counts ==> row == counts[key]
    ensures key !in counts ==> row == map[]
  {
    if key in counts then counts[key] else map[]
  }

  /** Counting the transition at idx. */
  function Count<T(==,!new)>(counts: Counts<T>, key: seq<T>, next: T): (c: Counts<T>)
    ensures c.Keys == counts.Keys + {key}
    ensures c[key] == Bump(Row(counts, key), next)
    ensures forall k :: k in counts && k != key ==> c[k] == counts[k]
  {
    counts[key := Bump(Row(counts, key), next)]
  }

  lemma KeysStep<T(!new)>(data: seq<T>, order: nat, counts: Counts<T>, idx: nat)
    requires order <= idx < |data| && KeysAre(data, order, counts, idx)
    ensures KeysAre(data, order, Count(counts, Window(data, order, idx), data[idx]), idx + 1)
  {
    var w := Window(data, order, idx);
    var c := Count(counts, w, data[idx]);
    forall key ensures key in c <==> exists i :: order <= i < idx + 1 && Window(data, order, i) == key {
      if key == w {
        assert order <= idx < idx + 1 && Window(data, order, idx) == key;
      } else if key in c {
        assert key in counts;
        var i :| order <= i < idx && Window(data, order, i) == key;
        assert order <= i < idx + 1;
      } else {
        assert key !in counts;
        forall i | order <= i < idx + 1 ensures Window(data, order, i) != key {
          if i < idx {
            assert !(order <= i < idx && Window(data, order, i) == key);
          }
        }
      }
    }
  }

  /** The transition at idx adds one to the count of its own state and bin, and to no other. */
  lemma FollowsStep<T(!new)>(data: seq<T>, order: nat, key: seq<T>, next: T, idx: nat)
    requires order <= idx < |data|
    ensures Follows(data, order, key, next, idx + 1)
      == Follows(data, order, key, next, idx) + (if Window(data, order, idx) == key && data[idx] == next then 1 else 0)
  {
  }

  lemma RowsStep<T(!new)>(data: seq<T>, order: nat, counts: Counts<T>, idx: nat)
    requires order <= idx < |data| && KeysAre(data, order, counts, idx) && RowsAre(data, order, counts, idx)
    ensures RowsAre(data, order, Count(counts, Window(data, order, idx), data[idx]), idx + 1)
  {
    var w := Window(data, order, idx);
    var c := Count(counts, w, data[idx]);
    forall key, next | key in c
      ensures next in c[key] <==> Follows(data, order, key, next, idx + 1) > 0
      ensures next in c[key] ==> c[key][next] == Follows(data, order, key, next, idx + 1)
    {
      FollowsStep(data, order, key, next, idx);
      if key != w {
        assert c[key] == counts[key];
      } else if key in counts {
        assert c[key] == Bump(counts[key], data[idx]);
      } else {
        assert c[key] == Bump(map[], data[idx]);
        SeenNone(data, order, key, idx);
        FollowsAtMostSeen(data, order, key, next, idx);
      }
    }
  }

  lemma SeenStep<T(!new)>(data: seq<T>, order: nat, counts: Counts<T>, idx: nat)
    requires order <= idx < |data| && KeysAre(data, order, counts, idx) && SeenAre(data, order, counts, idx)
    ensures SeenAre(data, order, Count(counts, Window(data, order, idx), data[idx]), idx + 1)
  {
    var key := Window(data, order, idx);
    var row := Row(counts, key);
    TotalBump(row, data[idx]);
    if key !in counts {
      SeenNone(data, order, key, idx);
      assert row.Keys == {};
    }
  }

  lemma GrandStep<T(!new)>(counts: Counts<T>, key: seq<T>, next: T)
    ensures Total(RowTotals(Count(counts, key, next))) == Total(RowTotals(counts)) + 1
  {
    var row := Row(counts, key);
    TotalBump(row, next);
    if key !in counts {
      assert row.Keys == {};
    }
    var before := RowTotals(counts);
    var after := RowTotals(Count(counts, key, next));
    assert after.Keys == Bump(before, key).Keys;
    forall k | k in after ensures after[k] == Bump(before, key)[k] {
      if k != key {
        assert after[k] == Total(counts[k]);
      }
    }
    assert after == Bump(before, key);
    TotalBump(before, key);
  }

  /** One round of the counting loop. */
  lemma CountStep<T(!new)>(data: seq<T>, order: nat, counts: Counts<T>, idx: nat)
    requires order <= idx < |data| && CountedTo(data, order, counts, idx)
    ensures CountedTo(data, order, Count(counts, Window(data, order, idx), data[idx]), idx + 1)
  {
    KeysStep(data, order, counts, idx);
    RowsStep(data, order, counts, idx);
    SeenStep(data, order, counts, idx);
    GrandStep(counts, Window(data, order, idx), data[idx]);
  }

  /** The state before position idx, built one bin at a time. */
  method StateKey<T(==,!new)>(data: seq<T>, order: nat, idx: nat) returns (key: seq<T>)
    requires order <= idx <= |data|
    ensures key == Window(data, order, idx)
  {
    key := [];
    var num := 0;
    while num < order
      invariant 0 <= num <= order
      invariant key == data[idx - order..idx - order + num]
    {
      key := key + [data[idx - order + num]];
      num := num + 1;
    }
  }

  /**
   * The counting pass: for each position idx from order on, one more count
   * of data[idx] after the state before idx. The states are exactly those
   * before some position, each count is the number of positions with that
   * state and bin (so at least one), each state's counts add up to its
   * occurrences, and all counts add up to the number of transitions, which
   * is zero when the data is no longer than the order.
   */
  method CountTransitions<T(==,!new)>(data: seq<T>, order: nat) returns (counts: Counts<T>)
    ensures CountedTo(data, order, counts, |data|)
    ensures forall key, next :: key in counts && next in counts[key] ==> counts[key][next] >= 1
    ensures Total(RowTotals(counts)) == Transitions(|data|, order)
  {
    counts := map[];
    var idx := order;
    if idx <= |data| {
      CountedStart(data, order, idx);
    }
    while idx < |data|
      invariant order <= idx
      invariant idx <= |data| ==> CountedTo(data, order, counts, idx)
      invariant idx > |data| ==> idx == order && counts == map[]
      decreases |data| - idx
    {
      var key := StateKey(data, order, idx);
      var next := data[idx];
      CountStep(data, order, counts, idx);
      counts := Count(counts, key, next);
      idx := idx + 1;
    }
    if idx > |data| {
      CountedStart(data, order, |data|);
    }
  }

  // ---------------------------------------------------------------------
  // The normalising pass.

  /** The sum of a row's counts (Python's sum over the values). */
  method RowSum<T(==,!new)>(row: map<T, nat>) returns (total: nat)
    ensures total == Total(row)
  {
    total := 0;
    var rest := row;
    while rest.Keys != {}
      invariant total + Total(rest) == Total(row)
      decreases |rest.Keys|
    {
      var k :| k in rest;
      TotalRemove(rest, k);
      total := total + rest[k];
      rest := rest - {k};
    }
    assert Total(rest) == 0;
  }

  /** Every count of the row divided by total. */
  method NormalizeRow<T(==,!new)>(row: map<T, nat>, total: nat) returns (probs: map<T, real>)
    requires total > 0
    ensures probs == Scaled(row, total as real)
  {
    probs := map[];
    var rest := row.Keys;
    while rest != {}
      invariant rest <= row.Keys && probs.Keys <= row.Keys && rest !! probs.Keys
      invariant forall k :: k in row ==> k in rest || k in probs
      invariant forall k :: k in probs ==> probs[k] == row[k] as real / total as real
      decreases |rest|
    {
      var k :| k in rest;
      probs := probs[k := row[k] as real / total as real];
      rest := rest - {k};
    }
    assert probs.Keys == row.Keys;
  }

  /** A row divided by its own positive total sums to one. */
  lemma RowSumsToOne<T(!new)>(row: map<T, nat>)
    requires Total(row) > 0
    ensures RealTotal(Scaled(row, Total(row) as real)) == 1.0
  {
    var t := Total(row) as real;
    ScaledTotal(row, t);
    DivideSelf(t);
  }

  lemma DivideSelf(t: real)
    requires t != 0.0
    ensures t / t == 1.0
  {
  }

  /**
   * The normalising pass: every row divided by its total. Rows come out of
   * the counting pass with positive counts, so no total is zero, and each
   * normalised row sums to one.
   */
  method Normalize<T(==,!new)>(counts: Counts<T>) returns (chain: Chain<T>)
    requires forall key, next :: key in counts && next in counts[key] ==> counts[key][next] >= 1
    ensures chain.Keys == counts.Keys
    ensures forall key :: key in chain && counts[key] != map[] ==>
      Total(counts[key]) > 0 && chain[key] == Scaled(counts[key], Total(counts[key]) as real)
    ensures forall key :: key in chain && counts[key] != map[] ==> RealTotal(chain[key]) == 1.0
    ensures forall key :: key in chain && counts[key] == map[] ==> chain[key] == map[]
  {
    chain := map[];
    var rest := counts.Keys;
    while rest != {}
      invariant rest <= counts.Keys && chain.Keys <= counts.Keys && rest !! chain.Keys
      invariant forall k :: k in counts ==> k in rest || k in chain
      invariant forall key :: key in chain && counts[key] != map[] ==>
        Total(counts[key]) > 0 && chain[key] == Scaled(counts[key], Total(counts[key]) as real)
      invariant forall key :: key in chain && counts[key] != map[] ==> RealTotal(chain[key]) == 1.0
      invariant forall key :: key in chain && counts[key] == map[] ==> chain[key] == map[]
      decreases |rest|
    {
      var key :| key in rest;
      var row := counts[key];
      if row != map[] {
        var next :| next in row;
        TotalPositive(row, next);
      }
      var total := RowSum(row);
      var probs: map<T, real> := map[];
      if total > 0 {
        probs := NormalizeRow(row, total);
        RowSumsToOne(row);
      }
      chain := chain[key := probs];
      rest := rest - {key};
    }
    assert chain.Keys == counts.Keys;
  }

  /**
   * The Markov chain of the given order: its states are exactly the states
   * before the positions from order on (none when the data is no longer
   * than the order), and the probability of bin next after state key is
   * the number of times next followed key over the number of times key
   * occurred; the probabilities of each state sum to one.
   */
  method MarkovChain<T(==,!new)>(data: seq<T>, order: nat) returns (chain: Chain<T>)
    ensures forall key :: key in chain <==> exists idx :: order <= idx < |data| && Window(data, order, idx) == key
    ensures |data| <= order ==> chain == map[]
    ensures forall key :: key in chain ==> Seen(data, order, key, |data|) > 0
    ensures forall key, next :: key in chain ==> (next in chain[key] <==> Follows(data, order, key, next, |data|) > 0)
    ensures forall key, next :: key in chain && next in chain[key] ==>
      chain[key][next] == Follows(data, order, key, next, |data|) as real / Seen(data, order, key, |data|) as real
    ensures forall key :: key in chain ==> RealTotal(chain[key]) == 1.0
  {
    var counts := CountTransitions(data, order);
    chain := Normalize(counts);
    NonEmptyRows(data, order, counts);
    if |data| <= order {
      assert forall key :: key !in counts;
    }
  }

  /** Every state the counting pass finds was followed by some bin, and was seen. */
  lemma NonEmptyRows<T(!new)>(data: seq<T>, order: nat, counts: Counts<T>)
    requires CountedTo(data, order, counts, |data|)
    ensures forall key :: key in counts ==> counts[key] != map[] && Seen(data, order, key, |data|) > 0
  {
    forall key | key in counts ensures counts[key] != map[] && Seen(data, order, key, |data|) > 0 {
      var i :| order <= i < |data| && Window(data, order, i) == key;
      FollowsHere(data, order, i, |data|);
      assert data[i] in counts[key];
      FollowsAtMostSeen(data, order, key, data[i], |data|);
    }
  }

  /** The transition at position i is counted once hi is past it. */
  lemma {:induction false} FollowsHere<T(!new)>(data: seq<T>, order: nat, i: nat, hi: nat)
    requires order <= i < hi <= |data|
    ensures Follows(data, order, Window(data, order, i), data[i], hi) > 0
    decreases hi
  {
    if hi - 1 > i {
      FollowsHere(data, order, i, hi - 1);
    }
  }
}
