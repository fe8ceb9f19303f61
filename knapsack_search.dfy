/**
 * The depth-first branch and bound of `beb_kp.py` (`beb`) over the greedy
 * relaxation: prune on the bound, keep an integral node as the new
 * incumbent when it improves, otherwise branch on the first fractional
 * item, fixing it to 0 and then to 1.
 */
module KnapsackSearch {
  import opened Numeric
  import opened KnapsackRelax

  /** The incumbent `(global_best_int_value, global_best_int_solution)`. */
  datatype Incumbent = Incumbent(value: real, solution: seq<int>)

  /** Every fixed entry is 0 or 1: the only amounts the search ever fixes. */
  predicate BinaryFixed(x: Assignment) {
    forall i :: 0 <= i < |x| && x[i].Some? ==> IsBinary(x[i].value)
  }

  /** The number of free entries. */
  function FreeCount(x: Assignment): nat
    decreases |x|
  {
    if |x| == 0 then 0
    else FreeCount(x[..|x| - 1]) + (if x[|x| - 1].None? then 1 else 0)
  }

  /** Fixing a free entry leaves one free entry fewer. */
  lemma {:induction false} FreeCountFix(x: Assignment, i: nat, v: real)
    requires i < |x| && x[i].None?
    ensures FreeCount(x[i := Some(v)]) + 1 == FreeCount(x)
    decreases |x|
  {
    var n := |x| - 1;
    var y := x[i := Some(v)];
    if i == n {
      assert y[..n] == x[..n];
    } else {
      assert y[..n] == x[..n][i := Some(v)];
      FreeCountFix(x[..n], i, v);
    }
  }

  /** The first index whose amount is more than `1e-6` away from an integer. */
  function FirstFractional(sol: seq<real>): (r: Option<nat>)
    ensures r.Some? ==> r.value < |sol| && Dist(sol[r.value]) > Eps
    ensures r.Some? ==> forall j :: 0 <= j < r.value ==> Dist(sol[j]) <= Eps
    ensures r.None? ==> forall j :: 0 <= j < |sol| ==> Dist(sol[j]) <= Eps
    decreases |sol|
  {
    if |sol| == 0 then None
    else if Dist(sol[0]) > Eps then Some(0)
    else match FirstFractional(sol[1..])
      case None => None
      case Some(i) => Some(i + 1)
  }

  /** The scan of `beb` for the branching index. */
  method FindFractional(sol: seq<real>) returns (idx: Option<nat>)
    ensures idx == FirstFractional(sol)
  {
    var i := 0;
    while i < |sol|
      invariant 0 <= i <= |sol|
      invariant forall j :: 0 <= j < i ==> Dist(sol[j]) <= Eps
    {
      if Dist(sol[i]) > Eps {
        return Some(i);
      }
      i := i + 1;
    }
    return None;
  }

  /** `[int(round(x)) for x in relaxed_solution]`. */
  function RoundAll(sol: seq<real>): (r: seq<int>)
    ensures |r| == |sol|
    ensures forall i :: 0 <= i < |sol| ==> Abs(sol[i] - r[i] as real) <= 0.5
  {
    seq(|sol|, i requires 0 <= i < |sol| => Round(sol[i]))
  }

  /** On a solution with no fractional entry, rounding moves no entry by more than `1e-6`. */
  lemma RoundIntegral(sol: seq<real>)
    requires FirstFractional(sol).None?
    ensures forall i :: 0 <= i < |sol| ==> Abs(sol[i] - RoundAll(sol)[i] as real) <= Eps
  {
    forall i | 0 <= i < |sol|
      ensures Abs(sol[i] - RoundAll(sol)[i] as real) <= Eps
    {
      assert Dist(sol[i]) <= Eps;
    }
  }

  /**
   * The index `beb` branches on is free in the node, so both children fix
   * one more entry to 0 or 1.
   */
  lemma BranchIndexFree(inst: Instance, x: Assignment)
    requires inst.Valid() && |x| == inst.Size() && BinaryFixed(x)
    requires Relax(inst, x).bound != 0.0 && FirstFractional(Relax(inst, x).sol).Some?
    ensures var i := FirstFractional(Relax(inst, x).sol).value;
      && i < |x| && x[i].None?
      && BinaryFixed(x[i := Some(0.0)]) && BinaryFixed(x[i := Some(1.0)])
      && FreeCount(x[i := Some(0.0)]) < FreeCount(x)
      && FreeCount(x[i := Some(1.0)]) < FreeCount(x)
  {
    var sol := Relax(inst, x).sol;
    var i := FirstFractional(sol).value;
    assert Round(0.0) == 0 && Round(1.0) == 1;
    forall j | 0 <= j < |x| && x[j].Some?
      ensures Dist(sol[j]) == 0.0
    {
      assert sol[j] == x[j].value;
    }
    FreeCountFix(x, i, 0.0);
    FreeCountFix(x, i, 1.0);
  }

  /**
   * The incumbent after `beb(x)` starting from `inc`: nothing changes when
   * the bound is exactly 0 or not above `inc.value - 1e-6`; an integral node
   * replaces the incumbent when its bound is above `inc.value + 1e-6`; any
   * other node explores the child with the branching item at 0 and then,
   * from that child's incumbent, the child with it at 1.
   */
  function Explore(inst: Instance, x: Assignment, inc: Incumbent): Incumbent
    requires inst.Valid() && |x| == inst.Size() && BinaryFixed(x)
    decreases FreeCount(x)
  {
    var r := Relax(inst, x);
    if r.bound == 0.0 || r.bound <= inc.value - Eps then inc
    else match FirstFractional(r.sol)
      case None =>
        if r.bound > inc.value + Eps then Incumbent(r.bound, RoundAll(r.sol)) else inc
      case Some(i) =>
        BranchIndexFree(inst, x);
        var after0 := Explore(inst, x[i := Some(0.0)], inc);
        Explore(inst, x[i := Some(1.0)], after0)
  }

  /** `y` keeps every fixed entry of `x`. */
  predicate Extends(y: Assignment, x: Assignment) {
    |y| == |x| && forall i :: 0 <= i < |x| && x[i].Some? ==> y[i] == x[i]
  }

  /** A node below a child is below its parent. */
  lemma ExtendsChild(y: Assignment, x: Assignment, i: nat, v: real)
    requires i < |x| && x[i].None? && Extends(y, x[i := Some(v)])
    ensures Extends(y, x)
  {
    assert forall k :: 0 <= k < |x| && x[k].Some? ==> x[i := Some(v)][k] == x[k];
  }

  /** `y` is a node whose relaxation is integral, with bound and rounded solution those of `inc`. */
  predicate IntegralLeaf(inst: Instance, y: Assignment, inc: Incumbent)
    requires inst.Valid() && |y| == inst.Size()
  {
    var r := Relax(inst, y);
    && r.bound != 0.0
    && FirstFractional(r.sol).None?
    && r.bound == inc.value
    && inc.solution == RoundAll(r.sol)
  }

  /**
   * Every incumbent the search installs comes from an integral node below
   * `x` and beats the incumbent it started from by more than `1e-6`.
   */
  lemma {:induction false} ExploreWitness(inst: Instance, x: Assignment, inc: Incumbent)
    requires inst.Valid() && |x| == inst.Size() && BinaryFixed(x)
    ensures var out := Explore(inst, x, inc);
      out == inc ||
      (out.value > inc.value + Eps &&
       exists y :: Extends(y, x) && |y| == inst.Size() && BinaryFixed(y) && IntegralLeaf(inst, y, out))
    decreases FreeCount(x)
  {
    var r := Relax(inst, x);
    var out := Explore(inst, x, inc);
    if r.bound == 0.0 || r.bound <= inc.value - Eps {
    } else if FirstFractional(r.sol).None? {
      if out != inc {
        assert Extends(x, x) && IntegralLeaf(inst, x, out);
      }
    } else {
      var i := FirstFractional(r.sol).value;
      BranchIndexFree(inst, x);
      var x0 := x[i := Some(0.0)];
      var x1 := x[i := Some(1.0)];
      var after0 := Explore(inst, x0, inc);
      assert out == Explore(inst, x1, after0);
      ExploreWitness(inst, x0, inc);
      ExploreWitness(inst, x1, after0);
      if out == after0 {
        if after0 != inc {
          var y :| Extends(y, x0) && |y| == inst.Size() && BinaryFixed(y) && IntegralLeaf(inst, y, after0);
          ExtendsChild(y, x, i, 0.0);
        }
      } else {
        var y :| Extends(y, x1) && |y| == inst.Size() && BinaryFixed(y) && IntegralLeaf(inst, y, out);
        ExtendsChild(y, x, i, 1.0);
      }
    }
  }

  /** The incumbent value never decreases. */
  lemma ExploreMonotone(inst: Instance, x: Assignment, inc: Incumbent)
    requires inst.Valid() && |x| == inst.Size() && BinaryFixed(x)
    ensures Explore(inst, x, inc).value >= inc.value
  {
    ExploreWitness(inst, x, inc);
  }

  /** `beb` from the root: every item free. */
  function AllFree(n: nat): (x: Assignment)
    ensures |x| == n && FreeCount(x) == n && BinaryFixed(x)
  {
    if n == 0 then [] else
      var x := AllFree(n - 1) + [None];
      assert x[..n - 1] == AllFree(n - 1);
      x
  }

  /**
   * The module state of `beb_kp.py`: the instance and the incumbent kept in
   * the globals `global_best_int_value` and `global_best_int_solution`.
   */
  class Solver {
    const inst: Instance
    var bestValue: real
    var bestSolution: seq<int>

    /** The module-level initial values: value 0.0 and the all-zero solution. */
    constructor(inst: Instance)
      requires inst.Valid()
      ensures this.inst == inst
      ensures bestValue == 0.0 && bestSolution == seq(inst.Size(), _ => 0)
    {
      this.inst := inst;
      bestValue := 0.0;
      bestSolution := seq(inst.Size(), _ => 0);
    }

    function State(): Incumbent
      reads this
    {
      Incumbent(bestValue, bestSolution)
    }

    /**
     * `beb(solution)`: the incumbent afterwards is the one `Explore`
     * describes; it never decreases, and a pruned node leaves it as it was.
     */
    method Beb(x: Assignment)
      requires inst.Valid() && |x| == inst.Size() && BinaryFixed(x)
      modifies this
      ensures State() == Explore(inst, x, old(State()))
      ensures bestValue >= old(bestValue)
      ensures Relax(inst, x).bound == 0.0 || Relax(inst, x).bound <= old(bestValue) - Eps ==>
                bestValue == old(bestValue) && bestSolution == old(bestSolution)
      decreases FreeCount(x)
    {
      ghost var start := State();
      ExploreMonotone(inst, x, start);
      var r := SolveRelax(inst, x);
      if r.bound == 0.0 {
        return;
      }
      if r.bound <= bestValue - Eps {
        return;
      }
      var idx := FindFractional(r.sol);
      if idx.None? {
        if r.bound > bestValue + Eps {
          bestValue := r.bound;
          bestSolution := RoundAll(r.sol);
        }
        return;
      }
      var i := idx.value;
      BranchIndexFree(inst, x);
      var child0 := x[i := Some(0.0)];
      Beb(child0);
      var child1 := x[i := Some(1.0)];
      Beb(child1);
    }
  }
}
