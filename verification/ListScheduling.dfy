/** Greedy list scheduling. */
module ListScheduling {
  import opened Bits

  /* Giving each item to a lightest bin, in any order, never makes a bin heavier than (2 - 1/m) times the
  heaviest bin of any other distribution over m bins. */

  /** The weight of bin p when item k is in bin bins[k]. */
  function Load(items: seq<nat>, bins: seq<nat>, p: nat): nat
    requires |items| == |bins|
  {
    if items == [] then 0
    else Load(items[..|items| - 1], bins[..|bins| - 1], p) + if bins[|bins| - 1] == p then items[|items| - 1] else 0
  }

  function Sum(items: seq<nat>): nat {
    if items == [] then 0 else Sum(items[..|items| - 1]) + items[|items| - 1]
  }

  ghost predicate IsDistribution(items: seq<nat>, bins: seq<nat>, m: nat) {
    |items| == |bins| && forall k :: 0 <= k < |bins| ==> bins[k] < m
  }

  /** Every item went to a bin that was as light as any other at that moment. */
  ghost predicate IsGreedy(items: seq<nat>, bins: seq<nat>, m: nat)
    decreases |items|
  {
    && IsDistribution(items, bins, m)
    && (items != [] ==>
          var n := |items| - 1;
          && IsGreedy(items[..n], bins[..n], m)
          && forall p: nat :: p < m ==> Load(items[..n], bins[..n], bins[n]) <= Load(items[..n], bins[..n], p))
  }

  /** The total weight of the first m bins. */
  function TotalLoad(items: seq<nat>, bins: seq<nat>, m: nat): nat
    requires |items| == |bins|
  {
    if m == 0 then 0 else TotalLoad(items, bins, m - 1) + Load(items, bins, m - 1)
  }

  lemma {:induction false} TotalLoadNext(items: seq<nat>, bins: seq<nat>, m: nat)
    requires |items| == |bins| > 0
    ensures var n := |items| - 1;
      TotalLoad(items, bins, m) == TotalLoad(items[..n], bins[..n], m) + if bins[n] < m then items[n] else 0
  {
    if m > 0 { TotalLoadNext(items, bins, m - 1); }
  }

  /** Nothing is lost: the bins together weigh what the items weigh. */
  lemma {:induction false} LoadsConserved(items: seq<nat>, bins: seq<nat>, m: nat)
    requires IsDistribution(items, bins, m)
    ensures TotalLoad(items, bins, m) == Sum(items)
  {
    if items == [] {
      NothingLoaded(m);
    } else {
      var n := |items| - 1;
      LoadsConserved(items[..n], bins[..n], m);
      TotalLoadNext(items, bins, m);
    }
  }

  lemma {:induction false} NothingLoaded(m: nat)
    ensures TotalLoad([], [], m) == 0
  {
    if m > 0 { NothingLoaded(m - 1); }
  }

  lemma {:induction false} TotalAtLeast(items: seq<nat>, bins: seq<nat>, m: nat, low: nat)
    requires |items| == |bins| && forall p: nat :: p < m ==> low <= Load(items, bins, p)
    ensures m * low <= TotalLoad(items, bins, m)
  {
    if m > 0 {
      TotalAtLeast(items, bins, m - 1, low);
      assert m * low == (m - 1) * low + low;
    }
  }

  lemma {:induction false} TotalAtMost(items: seq<nat>, bins: seq<nat>, m: nat, high: nat)
    requires |items| == |bins| && forall p: nat :: p < m ==> Load(items, bins, p) <= high
    ensures TotalLoad(items, bins, m) <= m * high
  {
    if m > 0 {
      TotalAtMost(items, bins, m - 1, high);
      assert m * high == (m - 1) * high + high;
    }
  }

  lemma {:induction false} ItemInLoad(items: seq<nat>, bins: seq<nat>, k: nat)
    requires k < |items| == |bins|
    ensures items[k] <= Load(items, bins, bins[k])
  {
    var n := |items| - 1;
    if k < n { ItemInLoad(items[..n], bins[..n], k); }
  }

  /** The last item that went to bin p: before it p was a lightest bin, and after it p stayed. */
  lemma {:induction false} LastItem(items: seq<nat>, bins: seq<nat>, m: nat, p: nat) returns (k: nat)
    requires IsGreedy(items, bins, m) && Load(items, bins, p) > 0
    ensures k < |items| && bins[k] == p
    ensures m * (Load(items, bins, p) - items[k]) + items[k] <= Sum(items)
    ensures items[k] <= Load(items, bins, p)
  {
    var n := |items| - 1;
    var before, where := items[..n], bins[..n];
    if bins[n] == p {
      k := n;
      TotalAtLeast(before, where, m, Load(before, where, p));
      LoadsConserved(before, where, m);
    } else {
      k := LastItem(before, where, m, p);
    }
  }

  /** The bound, for every bin p and every other distribution of the same items whose bins weigh
  at most `best`. */
  lemma GreedyBound(items: seq<nat>, bins: seq<nat>, m: nat, p: nat, other: seq<nat>, best: nat)
    requires IsGreedy(items, bins, m) && m > 0
    requires IsDistribution(items, other, m)
    requires forall q: nat :: q < m ==> Load(items, other, q) <= best
    ensures m * Load(items, bins, p) <= (2 * m - 1) * best
  {
    assert |items| == |bins|;
    hide Load, IsGreedy, Sum;
    if Load(items, bins, p) == 0 {
      Zero(m, Load(items, bins, p), best);
    } else {
      var k := LastItem(items, bins, m, p);
      ItemInLoad(items, other, k);
      LoadsConserved(items, other, m);
      TotalAtMost(items, other, m, best);
      Combine(m, Load(items, bins, p), items[k], Sum(items), best);
    }
  }

  lemma Zero(m: nat, load: nat, best: nat)
    requires load == 0 && m > 0
    ensures m * load <= (2 * m - 1) * best
  {
    Twice(m, best);
    Positive(m, best);
  }

  lemma Combine(m: nat, load: nat, item: nat, total: nat, best: nat)
    requires m > 0 && item <= load
    requires m * (load - item) + item <= total <= m * best
    requires item <= best
    ensures m * load <= (2 * m - 1) * best
  {
    Distribute(load, item, m);
    Distribute(best, item, m);
    Twice(m, best);
    Positive(m, best - item);
  }

  lemma Twice(m: int, x: int)
    ensures (2 * m - 1) * x == 2 * (m * x) - x
  {
  }

  lemma Positive(m: nat, x: nat)
    requires m > 0
    ensures m * x >= x
  {
  }
}
