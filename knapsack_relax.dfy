/**
 * The greedy fractional-knapsack relaxation of `beb_kp.py` (`solve_relax`).
 *
 * An assignment gives each item either a fixed amount (`Some`) or leaves it
 * free (`None`). The relaxation keeps the fixed amounts, and fills the free
 * items in descending value/cost order, taking whole items while they fit and
 * a fraction of the first one that does not.
 */
module KnapsackRelax {
  import opened Numeric

  /** The item values, item costs and the capacity (`valores`, `custos`, `custo_max`). */
  datatype Instance = Instance(values: seq<real>, costs: seq<real>, capacity: real) {
    predicate Valid() {
      |values| == |costs| && forall i :: 0 <= i < |costs| ==> costs[i] > 0.0
    }

    function Size(): nat {
      |costs|
    }

    /** `ratio[i]`, the value per unit of cost of item `i`. */
    function Ratio(i: nat): real
      requires Valid() && i < Size()
    {
      values[i] / costs[i]
    }
  }

  /** A partial 0/1 decision: `None` is an item the relaxation may choose. */
  type Assignment = seq<Option<real>>

  /** The pair `(valor_atual, sol)` that `solve_relax` returns. */
  datatype Relaxation = Relaxation(bound: real, sol: seq<real>)

  function Zeros(n: nat): (z: seq<real>)
    ensures |z| == n && forall i :: 0 <= i < n ==> z[i] == 0.0
  {
    seq(n, _ => 0.0)
  }

  predicate IsBinary(v: real) {
    v == 0.0 || v == 1.0
  }

  predicate InRange(inst: Instance, s: seq<nat>) {
    forall q :: 0 <= q < |s| ==> s[q] < inst.Size()
  }

  // ---------------------------------------------------------------------------
  // Weighted sums

  function Term(w: real, o: Option<real>): real {
    if o.Some? then w * o.value else 0.0
  }

  /** The sum of `w[i] * s[i]` over the fixed entries of `s`; free entries add nothing. */
  function Weighted(w: seq<real>, s: Assignment): real
    requires |w| == |s|
    decreases |s|
  {
    if |s| == 0 then 0.0
    else Weighted(w[..|s| - 1], s[..|s| - 1]) + Term(w[|s| - 1], s[|s| - 1])
  }

  /** The sum of `w[i] * r[i]`. */
  function Dot(w: seq<real>, r: seq<real>): real
    requires |w| == |r|
    decreases |r|
  {
    if |r| == 0 then 0.0
    else Dot(w[..|r| - 1], r[..|r| - 1]) + w[|r| - 1] * r[|r| - 1]
  }

  /** The total cost of the fixed entries of `x`. */
  function FixedCost(inst: Instance, x: Assignment): real
    requires |x| == inst.Size()
  {
    Weighted(inst.costs, x)
  }

  /** Fixing a free entry to `v` adds `w[i] * v` to the weighted sum. */
  lemma {:induction false} WeightedUpdate(w: seq<real>, s: Assignment, i: nat, v: real)
    requires |w| == |s| && i < |s| && s[i].None?
    ensures Weighted(w, s[i := Some(v)]) == Weighted(w, s) + w[i] * v
  {
    var n := |s| - 1;
    var t := s[i := Some(v)];
    if i == n {
      assert t[..n] == s[..n];
    } else {
      assert t[..n] == s[..n][i := Some(v)];
      WeightedUpdate(w[..n], s[..n], i, v);
    }
  }

  /** The entries of an assignment that has no free entry left. */
  function Values(s: Assignment): (r: seq<real>)
    requires forall i :: 0 <= i < |s| ==> s[i].Some?
    ensures |r| == |s| && forall i :: 0 <= i < |s| ==> r[i] == s[i].value
  {
    seq(|s|, i requires 0 <= i < |s| => s[i].value)
  }

  /** Once every entry is fixed, the weighted sum is the plain dot product. */
  lemma {:induction false} WeightedAllFixed(w: seq<real>, s: Assignment)
    requires |w| == |s| && forall i :: 0 <= i < |s| ==> s[i].Some?
    ensures Weighted(w, s) == Dot(w, Values(s))
  {
    if |s| > 0 {
      var n := |s| - 1;
      assert Values(s)[..n] == Values(s[..n]);
      WeightedAllFixed(w[..n], s[..n]);
    }
  }

  lemma {:induction false} DotZeros(w: seq<real>)
    ensures Dot(w, Zeros(|w|)) == 0.0
  {
    if |w| > 0 {
      var n := |w| - 1;
      assert Zeros(|w|)[..n] == Zeros(n);
      DotZeros(w[..n]);
    }
  }

  // ---------------------------------------------------------------------------
  // The free indices (`nulos_indices`)

  /** The indices of the free entries, in increasing order. */
  function FreeIndices(x: Assignment): (r: seq<nat>)
    decreases |x|
    ensures forall q :: 0 <= q < |r| ==> r[q] < |x| && x[r[q]].None?
    ensures forall i :: 0 <= i < |x| && x[i].None? ==> i in r
    ensures forall p, q :: 0 <= p < q < |r| ==> r[p] < r[q]
  {
    if |x| == 0 then []
    else
      var r := FreeIndices(x[..|x| - 1]);
      if x[|x| - 1].None? then r + [|x| - 1] else r
  }

  // ---------------------------------------------------------------------------
  // The greedy order (`sorted(nulos_indices, key=ratio, reverse=True)`)

  /**
   * The strict order in which the stable descending sort lists distinct
   * indices: higher ratio first, and on equal ratios the lower index first.
   */
  predicate Before(inst: Instance, a: nat, b: nat)
    requires inst.Valid() && a < inst.Size() && b < inst.Size()
  {
    inst.Ratio(a) > inst.Ratio(b) || (inst.Ratio(a) == inst.Ratio(b) && a < b)
  }

  predicate SortedByRatio(inst: Instance, s: seq<nat>)
    requires inst.Valid() && InRange(inst, s)
  {
    forall p, q :: 0 <= p < q < |s| ==> Before(inst, s[p], s[q])
  }

  /** Inserts `i` before the first element whose ratio is not above its own. */
  function Insert(inst: Instance, i: nat, s: seq<nat>): (r: seq<nat>)
    requires inst.Valid() && i < inst.Size() && InRange(inst, s)
    ensures |r| == |s| + 1 && multiset(r) == multiset(s) + multiset{i}
    ensures InRange(inst, r)
  {
    if s == [] then [i]
    else if inst.Ratio(i) >= inst.Ratio(s[0]) then [i] + s
    else
      var t := Insert(inst, i, s[1..]);
      assert s == [s[0]] + s[1..];
      assert forall q :: 0 < q <= |t| ==> ([s[0]] + t)[q] == t[q - 1];
      [s[0]] + t
  }

  /** A stable sort by descending ratio: an earlier element goes before later ones of equal ratio. */
  function RatioOrder(inst: Instance, s: seq<nat>): (r: seq<nat>)
    requires inst.Valid() && InRange(inst, s)
    ensures |r| == |s| && multiset(r) == multiset(s)
    ensures InRange(inst, r)
  {
    if s == [] then []
    else
      assert s == [s[0]] + s[1..];
      Insert(inst, s[0], RatioOrder(inst, s[1..]))
  }

  /** Inserting an index smaller than all others into a sorted list keeps it sorted. */
  lemma {:induction false} InsertSorted(inst: Instance, i: nat, s: seq<nat>)
    requires inst.Valid() && i < inst.Size() && InRange(inst, s)
    requires SortedByRatio(inst, s)
    requires forall q :: 0 <= q < |s| ==> i < s[q]
    ensures SortedByRatio(inst, Insert(inst, i, s))
  {
    if s != [] && inst.Ratio(i) < inst.Ratio(s[0]) {
      var t := Insert(inst, i, s[1..]);
      InsertSorted(inst, i, s[1..]);
      forall q | 0 <= q < |t|
        ensures Before(inst, s[0], t[q])
      {
        assert t[q] in multiset(t);
        if t[q] != i {
          assert t[q] in multiset(s[1..]);
          var k :| 0 <= k < |s[1..]| && s[1..][k] == t[q];
          assert s[k + 1] == t[q];
        }
      }
    }
  }

  /**
   * Sorting increasing indices gives the strict ratio order: descending
   * ratios, and equal ratios in increasing index order (stability).
   */
  lemma {:induction false} RatioOrderSorted(inst: Instance, s: seq<nat>)
    requires inst.Valid() && InRange(inst, s)
    requires forall p, q :: 0 <= p < q < |s| ==> s[p] < s[q]
    ensures SortedByRatio(inst, RatioOrder(inst, s))
  {
    if s != [] {
      var t := RatioOrder(inst, s[1..]);
      RatioOrderSorted(inst, s[1..]);
      forall q | 0 <= q < |t|
        ensures s[0] < t[q]
      {
        assert t[q] in multiset(s[1..]);
      }
      InsertSorted(inst, s[0], t);
    }
  }

  /** The strict ratio order lists no index twice. */
  lemma SortedDistinct(inst: Instance, s: seq<nat>)
    requires inst.Valid() && InRange(inst, s) && SortedByRatio(inst, s)
    ensures forall p, q :: 0 <= p < q < |s| ==> s[p] != s[q]
  {
    forall p, q | 0 <= p < q < |s|
      ensures s[p] != s[q]
    {
      assert Before(inst, s[p], s[q]);
    }
  }

  /** Two sequences with the same multiset have the same members. */
  lemma SameMembers(r: seq<nat>, s: seq<nat>)
    requires multiset(r) == multiset(s)
    ensures forall q :: 0 <= q < |r| ==> r[q] in s
    ensures forall e :: e in s ==> e in r
  {
    forall q | 0 <= q < |r|
      ensures r[q] in s
    {
      assert r[q] in multiset(r);
    }
    forall e | e in s
      ensures e in r
    {
      assert e in multiset(s);
    }
  }

  /** What the relaxation needs of the greedy order of the free indices of `x`. */
  lemma OrderFacts(inst: Instance, x: Assignment)
    requires inst.Valid() && |x| == inst.Size()
    ensures var order := RatioOrder(inst, FreeIndices(x));
      && (forall q :: 0 <= q < |order| ==> x[order[q]].None?)
      && (forall i :: 0 <= i < |x| && x[i].None? ==> i in order)
      && (forall p, q :: 0 <= p < q < |order| ==> order[p] != order[q])
  {
    var free := FreeIndices(x);
    var order := RatioOrder(inst, free);
    RatioOrderSorted(inst, free);
    SortedDistinct(inst, order);
    SameMembers(order, free);
  }

  // ---------------------------------------------------------------------------
  // The greedy fill

  /**
   * The amounts the fill loop gives the items of `order`, starting from a
   * used capacity `used`: whole items while `used + cost <= capacity + 1e-6`,
   * then the fraction `(capacity - used) / cost` of the first item that does
   * not fit, then nothing.
   */
  function GreedyFill(inst: Instance, order: seq<nat>, used: real): (fill: seq<real>)
    requires inst.Valid() && InRange(inst, order)
    ensures |fill| == |order|
    decreases |order|
  {
    if order == [] then []
    else
      var c := inst.costs[order[0]];
      if used + c <= inst.capacity + Eps then [1.0] + GreedyFill(inst, order[1..], used + c)
      else [(inst.capacity - used) / c] + Zeros(|order| - 1)
  }

  /** Every amount other than 1 is followed only by zeros. */
  predicate GreedyShaped(fill: seq<real>) {
    forall q, t :: 0 <= q < t < |fill| && fill[q] != 1.0 ==> fill[t] == 0.0
  }

  /**
   * Along the greedy order, an amount other than 1 is a fraction below 1
   * and is followed only by zeros: the whole items form a prefix, and at
   * most one item gets a fraction.
   */
  lemma {:induction false} GreedyFillShape(inst: Instance, order: seq<nat>, used: real)
    requires inst.Valid() && InRange(inst, order) && used <= inst.capacity + Eps
    ensures GreedyShaped(GreedyFill(inst, order, used))
    ensures forall q :: 0 <= q < |order| ==> GreedyFill(inst, order, used)[q] <= 1.0
  {
    if order != [] {
      var c := inst.costs[order[0]];
      var fill := GreedyFill(inst, order, used);
      if used + c <= inst.capacity + Eps {
        GreedyFillShape(inst, order[1..], used + c);
        assert fill[1..] == GreedyFill(inst, order[1..], used + c);
        forall q, t | 0 <= q < t < |fill| && fill[q] != 1.0
          ensures fill[t] == 0.0
        {
          assert fill[1..][q - 1] != 1.0 && fill[t] == fill[1..][t - 1];
        }
      } else {
        assert inst.capacity - used < c;
        assert (inst.capacity - used) / c < 1.0;
      }
    }
  }

  /** The position of `i` in `s`. */
  function Position(s: seq<nat>, i: nat): (p: nat)
    requires i in s
    ensures p < |s| && s[p] == i
  {
    if s[0] == i then 0 else 1 + Position(s[1..], i)
  }

  lemma PositionOfDistinct(s: seq<nat>, q: nat)
    requires q < |s| && forall a, b :: 0 <= a < b < |s| ==> s[a] != s[b]
    ensures Position(s, s[q]) == q
  {
  }

  // ---------------------------------------------------------------------------
  // The relaxation

  /**
   * The result of `solve_relax`: the zero sentinel when the fixed items
   * alone exceed the capacity, otherwise the fixed amounts with the greedy
   * fill on the free items, valued at `sum(valores[i] * sol[i])`.
   */
  function Relax(inst: Instance, x: Assignment): (r: Relaxation)
    requires inst.Valid() && |x| == inst.Size()
    ensures |r.sol| == |x|
    ensures r.bound == 0.0 || forall i :: 0 <= i < |x| && x[i].Some? ==> r.sol[i] == x[i].value
  {
    var used := FixedCost(inst, x);
    if used > inst.capacity + Eps then Relaxation(0.0, Zeros(|x|))
    else
      var order := RatioOrder(inst, FreeIndices(x));
      OrderFacts(inst, x);
      var sol := Assemble(x, order, GreedyFill(inst, order, used));
      Relaxation(Dot(inst.values, sol), sol)
  }

  /** The fixed amounts of `x`, with `fill[q]` on the free index `order[q]`. */
  function Assemble(x: Assignment, order: seq<nat>, fill: seq<real>): (sol: seq<real>)
    requires |fill| == |order| && forall i :: 0 <= i < |x| && x[i].None? ==> i in order
    ensures |sol| == |x|
    ensures forall i :: 0 <= i < |x| && x[i].Some? ==> sol[i] == x[i].value
    ensures forall i :: 0 <= i < |x| && x[i].None? ==> sol[i] == fill[Position(order, i)]
  {
    seq(|x|, i requires 0 <= i < |x| => if x[i].Some? then x[i].value else fill[Position(order, i)])
  }

  /** Placing a greedily shaped fill on distinct free indices keeps its shape. */
  lemma AssembleShape(x: Assignment, order: seq<nat>, fill: seq<real>)
    requires |fill| == |order| && GreedyShaped(fill)
    requires forall q :: 0 <= q < |order| ==> order[q] < |x| && x[order[q]].None?
    requires forall i :: 0 <= i < |x| && x[i].None? ==> i in order
    requires forall p, q :: 0 <= p < q < |order| ==> order[p] != order[q]
    ensures var sol := Assemble(x, order, fill);
      && (forall q :: 0 <= q < |order| ==> sol[order[q]] == fill[q])
      && (forall q, t :: 0 <= q < t < |order| && sol[order[t]] == 1.0 ==> sol[order[q]] == 1.0)
      && (forall q, t :: 0 <= q < t < |order| && sol[order[q]] != 1.0 ==> sol[order[t]] == 0.0)
      && (forall i, j :: (0 <= i < |x| && 0 <= j < |x| && x[i].None? && x[j].None? &&
                          !IsBinary(sol[i]) && !IsBinary(sol[j])) ==> i == j)
  {
    var sol := Assemble(x, order, fill);
    forall q | 0 <= q < |order|
      ensures sol[order[q]] == fill[q]
    {
      PositionOfDistinct(order, q);
    }
    forall i, j | 0 <= i < |x| && 0 <= j < |x| && x[i].None? && x[j].None? &&
                  !IsBinary(sol[i]) && !IsBinary(sol[j])
      ensures i == j
    {
      var p, q := Position(order, i), Position(order, j);
      assert sol[i] == fill[p] && sol[j] == fill[q];
    }
  }

  /**
   * Outside the sentinel case the free items are visited in the strict
   * ratio order; along it the items taken whole form a prefix, every item
   * after the first one not taken whole gets 0, and at most one free item
   * gets an amount other than 0 or 1.
   */
  lemma RelaxIsGreedy(inst: Instance, x: Assignment)
    requires inst.Valid() && |x| == inst.Size()
    requires FixedCost(inst, x) <= inst.capacity + Eps
    ensures var order := RatioOrder(inst, FreeIndices(x));
      var sol := Relax(inst, x).sol;
      && SortedByRatio(inst, order)
      && (forall q, t :: 0 <= q < t < |order| && sol[order[t]] == 1.0 ==> sol[order[q]] == 1.0)
      && (forall q, t :: 0 <= q < t < |order| && sol[order[q]] != 1.0 ==> sol[order[t]] == 0.0)
      && (forall i, j :: (0 <= i < |x| && 0 <= j < |x| && x[i].None? && x[j].None? &&
                          !IsBinary(sol[i]) && !IsBinary(sol[j])) ==> i == j)
  {
    var order := RatioOrder(inst, FreeIndices(x));
    var used := FixedCost(inst, x);
    OrderFacts(inst, x);
    GreedyFillShape(inst, order, used);
    AssembleShape(x, order, GreedyFill(inst, order, used));
    RatioOrderSorted(inst, FreeIndices(x));
  }

  // ---------------------------------------------------------------------------
  // `solve_relax`, loop by loop

  /** The first loop of `solve_relax`: the cost and value of the fixed entries, and the free indices. */
  method SumFixed(inst: Instance, x: Assignment) returns (cost: real, value: real, free: seq<nat>)
    requires inst.Valid() && |x| == inst.Size()
    ensures cost == FixedCost(inst, x) && value == Weighted(inst.values, x)
    ensures free == FreeIndices(x)
  {
    cost, value, free := 0.0, 0.0, [];
    var i := 0;
    while i < |x|
      invariant 0 <= i <= |x|
      invariant cost == Weighted(inst.costs[..i], x[..i])
      invariant value == Weighted(inst.values[..i], x[..i])
      invariant free == FreeIndices(x[..i])
    {
      if x[i].Some? {
        cost := cost + Term(inst.costs[i], x[i]);
        value := value + Term(inst.values[i], x[i]);
      } else {
        free := free + [i];
      }
      assert x[..i + 1][..i] == x[..i];
      assert inst.costs[..i + 1][..i] == inst.costs[..i];
      assert inst.values[..i + 1][..i] == inst.values[..i];
      i := i + 1;
    }
    assert x[..i] == x && inst.costs[..i] == inst.costs && inst.values[..i] == inst.values;
  }

  /**
   * The state after the fill loop: the fixed entries are untouched, and each
   * free index `order[q]` holds `fill[q]`, or is still free when `fill[q]` is 0.
   */
  ghost predicate Filled(x: Assignment, order: seq<nat>, fill: seq<real>, sol: Assignment)
    requires |fill| == |order|
  {
    && |sol| == |x|
    && (forall k :: 0 <= k < |x| && x[k].Some? ==> sol[k] == x[k])
    && (forall q :: 0 <= q < |order| && order[q] < |sol| ==>
          sol[order[q]] == Some(fill[q]) || (sol[order[q]].None? && fill[q] == 0.0))
  }

  /** The requirements on the greedy order of the free indices of `x`. */
  ghost predicate FreeOrder(x: Assignment, order: seq<nat>) {
    && (forall q :: 0 <= q < |order| ==> order[q] < |x| && x[order[q]].None?)
    && (forall p, q :: 0 <= p < q < |order| ==> order[p] != order[q])
  }

  /** `cost` and `value` are the total cost and value of `sol`. */
  ghost predicate Sums(inst: Instance, sol: Assignment, cost: real, value: real) {
    && |sol| == |inst.costs| && cost == Weighted(inst.costs, sol)
    && |sol| == |inst.values| && value == Weighted(inst.values, sol)
  }

  /** The first `p` items of the order are taken whole, the others are still unset. */
  ghost predicate Progress(x: Assignment, order: seq<nat>, fill: seq<real>, p: nat, sol: Assignment)
    requires |fill| == |order|
  {
    && p <= |order|
    && |sol| == |x|
    && (forall k :: 0 <= k < |x| && x[k].Some? ==> sol[k] == x[k])
    && (forall q :: 0 <= q < p ==> order[q] < |sol| && sol[order[q]] == Some(1.0) && fill[q] == 1.0)
    && (forall q :: p <= q < |order| ==> order[q] < |sol| && sol[order[q]].None?)
  }

  /** What the fill loop keeps after the first `p` items of the greedy order. */
  ghost predicate FillInv(inst: Instance, x: Assignment, order: seq<nat>, fill: seq<real>,
                          p: nat, sol: Assignment, cost: real, value: real)
    requires inst.Valid() && InRange(inst, order) && |fill| == |order|
  {
    && Progress(x, order, fill, p, sol)
    && fill[p..] == GreedyFill(inst, order[p..], cost)
    && Sums(inst, sol, cost, value)
    && cost <= inst.capacity + Eps
  }

  /** Every amount is 0 or 1. */
  predicate AllBinary(fill: seq<real>) {
    forall q :: 0 <= q < |fill| ==> IsBinary(fill[q])
  }

  /** What the fill loop delivers: the greedy amounts in place, and the cost within the capacity. */
  ghost predicate FillPost(inst: Instance, x: Assignment, order: seq<nat>, fill: seq<real>,
                           sol: Assignment, cost: real, value: real)
    requires |fill| == |order|
  {
    && Filled(x, order, fill, sol)
    && Sums(inst, sol, cost, value)
    && cost <= inst.capacity + Eps
    && (AllBinary(fill) || cost == inst.capacity)
  }

  /** Before the fill loop nothing free is set and the sums are those of the fixed entries. */
  lemma FillStart(inst: Instance, x: Assignment, order: seq<nat>, used: real, usedValue: real)
    requires inst.Valid() && |x| == inst.Size() && InRange(inst, order) && FreeOrder(x, order)
    requires used == FixedCost(inst, x) && used <= inst.capacity + Eps
    requires usedValue == Weighted(inst.values, x)
    ensures FillInv(inst, x, order, GreedyFill(inst, order, used), 0, x, used, usedValue)
  {
    assert order[0..] == order;
  }

  /** An item that fits is taken whole. */
  lemma FillWhole(inst: Instance, x: Assignment, order: seq<nat>, fill: seq<real>,
                  p: nat, sol: Assignment, cost: real, value: real)
    requires inst.Valid() && |x| == inst.Size() && InRange(inst, order) && FreeOrder(x, order)
    requires |fill| == |order| && FillInv(inst, x, order, fill, p, sol, cost, value)
    requires p < |order| && cost + inst.costs[order[p]] <= inst.capacity + Eps
    ensures FillInv(inst, x, order, fill, p + 1, sol[order[p] := Some(1.0)],
                    cost + inst.costs[order[p]], value + inst.values[order[p]])
  {
    var idx := order[p];
    WeightedUpdate(inst.costs, sol, idx, 1.0);
    WeightedUpdate(inst.values, sol, idx, 1.0);
    assert order[p..][1..] == order[p + 1..];
    assert fill[p + 1..] == fill[p..][1..];
    assert fill[p] == fill[p..][0];
  }

  /** The first item that does not fit is taken in the fraction that fills the capacity exactly. */
  lemma FillFraction(inst: Instance, x: Assignment, order: seq<nat>, fill: seq<real>,
                     p: nat, sol: Assignment, cost: real, value: real)
    requires inst.Valid() && |x| == inst.Size() && InRange(inst, order) && FreeOrder(x, order)
    requires |fill| == |order| && FillInv(inst, x, order, fill, p, sol, cost, value)
    requires p < |order| && cost + inst.costs[order[p]] > inst.capacity + Eps
    ensures var frac := (inst.capacity - cost) / inst.costs[order[p]];
            FillPost(inst, x, order, fill, sol[order[p] := Some(frac)],
                     inst.capacity, value + inst.values[order[p]] * frac)
  {
    var idx := order[p];
    var c := inst.costs[idx];
    var frac := (inst.capacity - cost) / c;
    assert c * frac == inst.capacity - cost;
    assert Weighted(inst.costs, sol[idx := Some(frac)]) == inst.capacity by {
      WeightedUpdate(inst.costs, sol, idx, frac);
    }
    WeightedUpdate(inst.values, sol, idx, frac);
    assert fill[p..] == [frac] + Zeros(|order| - p - 1) by {
      assert order[p..][0] == idx;
    }
    assert forall q :: p <= q < |order| ==> fill[q] == fill[p..][q - p];
  }

  /** When every item of the order fits, all of them are taken whole. */
  lemma FillComplete(inst: Instance, x: Assignment, order: seq<nat>, fill: seq<real>,
                     sol: Assignment, cost: real, value: real)
    requires inst.Valid() && |x| == inst.Size() && InRange(inst, order)
    requires |fill| == |order| && FillInv(inst, x, order, fill, |order|, sol, cost, value)
    ensures FillPost(inst, x, order, fill, sol, cost, value)
  {
    assert AllBinary(fill);
  }

  /**
   * One pass of the fill loop of `solve_relax` on the item `order[p]`: taken
   * whole when it fits within the capacity and `1e-6`; otherwise taken in the
   * fraction that uses the capacity up exactly, and the loop stops.
   */
  method TakeItem(inst: Instance, x: Assignment, order: seq<nat>, ghost fill: seq<real>,
                  p: nat, sol: Assignment, cost: real, value: real)
    returns (sol': Assignment, cost': real, value': real, stop: bool)
    requires inst.Valid() && |x| == inst.Size() && InRange(inst, order) && FreeOrder(x, order)
    requires |fill| == |order| && FillInv(inst, x, order, fill, p, sol, cost, value)
    requires p < |order|
    ensures !stop ==> FillInv(inst, x, order, fill, p + 1, sol', cost', value')
    ensures stop ==> FillPost(inst, x, order, fill, sol', cost', value')
  {
    var idx := order[p];
    var c := inst.costs[idx];
    if cost + c <= inst.capacity + Eps {
      FillWhole(inst, x, order, fill, p, sol, cost, value);
      return sol[idx := Some(1.0)], cost + c, value + inst.values[idx], false;
    } else {
      var frac := (inst.capacity - cost) / c;
      FillFraction(inst, x, order, fill, p, sol, cost, value);
      return sol[idx := Some(frac)], inst.capacity, value + inst.values[idx] * frac, true;
    }
  }

  /**
   * The fill loop of `solve_relax`: walks the greedy order, takes each item
   * whole while the capacity allows it, and on the first item that does not
   * fit takes the fraction that uses the capacity up exactly, then stops.
   */
  method FillGreedy(inst: Instance, x: Assignment, order: seq<nat>, used: real, usedValue: real)
    returns (sol: Assignment, cost: real, value: real)
    requires inst.Valid() && |x| == inst.Size() && InRange(inst, order) && FreeOrder(x, order)
    requires used == FixedCost(inst, x) && used <= inst.capacity + Eps
    requires usedValue == Weighted(inst.values, x)
    ensures FillPost(inst, x, order, GreedyFill(inst, order, used), sol, cost, value)
  {
    ghost var fill := GreedyFill(inst, order, used);
    FillStart(inst, x, order, used, usedValue);
    sol, cost, value := x, used, usedValue;
    var p := 0;
    while p < |order|
      invariant FillInv(inst, x, order, fill, p, sol, cost, value)
    {
      var stop;
      sol, cost, value, stop := TakeItem(inst, x, order, fill, p, sol, cost, value);
      if stop {
        return;
      }
      p := p + 1;
    }
    FillComplete(inst, x, order, fill, sol, cost, value);
  }

  /** The last loop of `solve_relax`: every free index still unset gets 0. */
  method ZeroRest(inst: Instance, x: Assignment, free: seq<nat>, order: seq<nat>,
                  ghost fill: seq<real>, sol0: Assignment)
    returns (sol: Assignment)
    requires inst.Valid() && |x| == inst.Size() && |fill| == |order|
    requires forall k :: 0 <= k < |free| ==> free[k] < |x|
    requires Filled(x, order, fill, sol0)
    ensures Filled(x, order, fill, sol)
    ensures forall k :: 0 <= k < |free| ==> sol[free[k]].Some?
    ensures forall k :: 0 <= k < |x| && sol0[k].Some? ==> sol[k] == sol0[k]
    ensures Weighted(inst.costs, sol) == Weighted(inst.costs, sol0)
    ensures Weighted(inst.values, sol) == Weighted(inst.values, sol0)
  {
    sol := sol0;
    var j := 0;
    while j < |free|
      invariant 0 <= j <= |free|
      invariant Filled(x, order, fill, sol)
      invariant forall k :: 0 <= k < j ==> sol[free[k]].Some?
      invariant forall k :: 0 <= k < |x| && sol0[k].Some? ==> sol[k] == sol0[k]
      invariant Weighted(inst.costs, sol) == Weighted(inst.costs, sol0)
      invariant Weighted(inst.values, sol) == Weighted(inst.values, sol0)
    {
      var k := free[j];
      if sol[k].None? {
        WeightedUpdate(inst.costs, sol, k, 0.0);
        WeightedUpdate(inst.values, sol, k, 0.0);
        sol := sol[k := Some(0.0)];
      }
      j := j + 1;
    }
  }

  /** A filled assignment with no free entry left is the assembled relaxation. */
  lemma FilledAssembles(x: Assignment, order: seq<nat>, fill: seq<real>, sol: Assignment)
    requires |fill| == |order| && FreeOrder(x, order)
    requires forall i :: 0 <= i < |x| && x[i].None? ==> i in order
    requires Filled(x, order, fill, sol) && forall k :: 0 <= k < |sol| ==> sol[k].Some?
    ensures Values(sol) == Assemble(x, order, fill)
  {
    forall k | 0 <= k < |x| && x[k].None?
      ensures sol[k].value == fill[Position(order, k)]
    {
      var q := Position(order, k);
    }
  }

  /** A fill of whole items only puts 0 or 1 on every free entry. */
  lemma AssembleBinary(x: Assignment, order: seq<nat>, fill: seq<real>)
    requires |fill| == |order| && forall i :: 0 <= i < |x| && x[i].None? ==> i in order
    ensures AllBinary(fill) ==>
      forall i :: 0 <= i < |x| && x[i].None? ==> IsBinary(Assemble(x, order, fill)[i])
  {
    if AllBinary(fill) {
      forall i | 0 <= i < |x| && x[i].None?
        ensures IsBinary(Assemble(x, order, fill)[i])
      {
        var q := Position(order, i);
      }
    }
  }

  /** Once the fixed entries are kept and every free index is set, no entry is left unset. */
  lemma NoneLeft(x: Assignment, free: seq<nat>, sol: Assignment)
    requires |sol| == |x| && forall k :: 0 <= k < |x| && x[k].Some? ==> sol[k] == x[k]
    requires forall i :: 0 <= i < |x| && x[i].None? ==> i in free
    requires forall k :: 0 <= k < |free| ==> free[k] < |sol| && sol[free[k]].Some?
    ensures forall k :: 0 <= k < |x| ==> sol[k].Some?
  {
    forall k | 0 <= k < |x|
      ensures sol[k].Some?
    {
      if x[k].None? {
        var t :| 0 <= t < |free| && free[t] == k;
      }
    }
  }

  /**
   * `solve_relax`: the zero sentinel when the fixed entries exceed the
   * capacity; otherwise the greedy fill on the free entries, whose value
   * and cost are the dot products with the values and the costs.
   */
  method SolveRelax(inst: Instance, x: Assignment) returns (r: Relaxation)
    requires inst.Valid() && |x| == inst.Size()
    ensures r == Relax(inst, x)
    ensures r.bound == Dot(inst.values, r.sol)
    ensures FixedCost(inst, x) > inst.capacity + Eps ==> r.bound == 0.0 && r.sol == Zeros(|x|)
    ensures FixedCost(inst, x) <= inst.capacity + Eps ==>
      && (forall i :: 0 <= i < |x| && x[i].Some? ==> r.sol[i] == x[i].value)
      && Dot(inst.costs, r.sol) <= inst.capacity + Eps
      && ((exists i :: 0 <= i < |x| && x[i].None? && !IsBinary(r.sol[i])) ==>
            Dot(inst.costs, r.sol) == inst.capacity)
  {
    var cost, value, free := SumFixed(inst, x);
    if cost > inst.capacity + Eps {
      DotZeros(inst.values);
      return Relaxation(0.0, Zeros(|x|));
    }

    var order := RatioOrder(inst, free);
    OrderFacts(inst, x);
    ghost var fill := GreedyFill(inst, order, cost);
    var sol, cost', value' := FillGreedy(inst, x, order, cost, value);
    sol := ZeroRest(inst, x, free, order, fill, sol);

    NoneLeft(x, free, sol);
    var result := Values(sol);
    WeightedAllFixed(inst.costs, sol);
    WeightedAllFixed(inst.values, sol);
    FilledAssembles(x, order, fill, sol);
    AssembleBinary(x, order, fill);
    r := Relaxation(value', result);
  }
}
