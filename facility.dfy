/**
 * The branch-and-bound engine of `beb_proj7_4.py`: a minimisation over
 * relaxed facility-location LPs that branches on the most fractional
 * warehouse variable `y_i`, logs one record per node in depth-first preorder,
 * and keeps the incumbent in module globals.
 */
module FacilityLocation {
  import opened Numeric
  import opened SearchTree
  import opened DepthFirst

  /** An optimal LP solution: `y` per warehouse in iteration order, and the transport amounts `x`. */
  datatype LpSolution = LpSolution(y: seq<(string, real)>, x: map<(string, string), real>)

  /** The Gurobi relaxation as a deterministic function of the problem name and the branching constraints. */
  type Oracle = (string, Path) -> LpOutcome<LpSolution>

  /** The rounded `y` values that become the incumbent solution. */
  type Opening = seq<(string, int)>

  type State = Search<LpSolution, Opening>

  type Step = DepthFirst.Step<LpSolution, Opening>

  /**
   * `solve_lp_relaxation`: the objective and the solution at an optimum;
   * `(math.inf, None)` for any other status and for a Gurobi error.
   */
  function SolveLpRelaxation(oracle: Oracle, problem: string, cs: Path): (out: (ExtReal, Option<LpSolution>))
    ensures out.0 != NegInf
    ensures out.0.Finite? <==> out.1.Some?
    ensures out.0 == PosInf <==> oracle(problem, cs).NotOptimal?
  {
    match oracle(problem, cs)
    case Optimal(v, sol) => (Finite(v), Some(sol))
    case NotOptimal => (PosInf, None)
  }

  // ---------------------------------------------------------------------------
  // Branching variable names

  /** `f'y_{i}'`, the name of the branching variable of warehouse `i`. */
  function BranchName(key: string): string {
    "y_" + key
  }

  /** `var_name[2]`, the warehouse key read back from a branching name; `None` where indexing fails. */
  function DecodeName(name: string): Option<string> {
    if |name| >= 3 then Some([name[2]]) else None
  }

  /** Reading a branching name back recovers the key exactly when the key is a single character. */
  lemma DecodeBranchName(key: string)
    ensures DecodeName(BranchName(key)) == Some(key) <==> |key| == 1
  {
    if |key| == 1 {
      assert BranchName(key)[2] == key[0];
      assert [key[0]] == key;
    }
  }

  // ---------------------------------------------------------------------------
  // The most fractional `y`

  /**
   * The index the scan of `branch_and_bound` settles on after the first `k`
   * entries: the first one with the largest distance to an integer among
   * those that are not near an integer.
   */
  function MostFractionalIn(ys: seq<(string, real)>, k: nat): (r: Option<nat>)
    requires k <= |ys|
    ensures r.Some? ==> r.value < k
    decreases k
  {
    if k == 0 then None
    else
      var b := MostFractionalIn(ys, k - 1);
      var d := Dist(ys[k - 1].1);
      if d < Eps then b
      else if b.None? || d > Dist(ys[b.value].1) then Some(k - 1)
      else b
  }

  /**
   * The scan finds nothing exactly when every entry is near an integer;
   * otherwise it settles on an entry that is not, whose distance to an
   * integer is the largest, and strictly larger than that of every earlier
   * candidate, so ties go to the first.
   */
  lemma {:induction false} MostFractionalInSpec(ys: seq<(string, real)>, k: nat)
    requires k <= |ys|
    ensures var r := MostFractionalIn(ys, k);
      && (r.None? <==> forall j :: 0 <= j < k ==> NearInteger(ys[j].1))
      && (r.Some? ==> !NearInteger(ys[r.value].1))
      && (r.Some? ==> forall j :: 0 <= j < k && !NearInteger(ys[j].1) ==> Dist(ys[j].1) <= Dist(ys[r.value].1))
      && (r.Some? ==> forall j :: 0 <= j < r.value && !NearInteger(ys[j].1) ==> Dist(ys[j].1) < Dist(ys[r.value].1))
    decreases k
  {
    if k > 0 {
      MostFractionalInSpec(ys, k - 1);
    }
  }

  function MostFractional(ys: seq<(string, real)>): Option<nat> {
    MostFractionalIn(ys, |ys|)
  }

  /**
   * The scan of `branch_and_bound` over `y_sol`: `is_integer` holds when no
   * entry is fractional, and otherwise the branching name and value are
   * those of the most fractional entry.
   */
  method ScanFractional(ys: seq<(string, real)>) returns (isInteger: bool, varToBranch: Option<string>, valToBranch: real)
    ensures isInteger <==> MostFractional(ys).None?
    ensures isInteger ==> varToBranch.None?
    ensures !isInteger ==>
      var i := MostFractional(ys).value;
      varToBranch == Some(BranchName(ys[i].0)) && valToBranch == ys[i].1
  {
    isInteger := true;
    varToBranch := None;
    valToBranch := 0.0;
    var maxFrac := -1.0;
    ghost var chosen: Option<nat> := None;
    var j := 0;
    while j < |ys|
      invariant 0 <= j <= |ys|
      invariant chosen == MostFractionalIn(ys, j)
      invariant isInteger <==> chosen.None?
      invariant chosen.None? ==> varToBranch.None? && maxFrac == -1.0
      invariant chosen.Some? ==> chosen.value < |ys| && maxFrac == Dist(ys[chosen.value].1)
      invariant chosen.Some? ==> varToBranch == Some(BranchName(ys[chosen.value].0)) && valToBranch == ys[chosen.value].1
    {
      var (key, value) := ys[j];
      var isInt := Dist(value) < Eps;
      if !isInt {
        isInteger := false;
        var frac := Dist(value);
        if frac > maxFrac {
          maxFrac := frac;
          varToBranch := Some(BranchName(key));
          valToBranch := value;
          chosen := Some(j);
        }
      }
      j := j + 1;
    }
  }

  /** `{k: round(v) for k, v in y_sol.items()}`. */
  function RoundY(ys: seq<(string, real)>): Opening {
    seq(|ys|, i requires 0 <= i < |ys| => (ys[i].0, Round(ys[i].1)))
  }

  /** Rounding keeps every warehouse key, in order, and moves no value by more than one half. */
  lemma RoundYSpec(ys: seq<(string, real)>)
    ensures |RoundY(ys)| == |ys|
    ensures forall i :: 0 <= i < |ys| ==> RoundY(ys)[i].0 == ys[i].0 && Abs(ys[i].1 - RoundY(ys)[i].1 as real) <= 0.5
  {
  }

  // ---------------------------------------------------------------------------
  // The search

  /** `lp_value >= global_best_integer_value - 1e-6 or lp_value == math.inf`. */
  predicate Prunes(best: ExtReal, lp: ExtReal) {
    AtMost(Shift(best, -Eps), lp) || lp == PosInf
  }

  /** `lp_value < global_best_integer_value - 1e-6`. */
  predicate Improves(best: ExtReal, lp: ExtReal) {
    Below(lp, Shift(best, -Eps))
  }

  /** The incumbent solution an integral node installs: its `y` values rounded. */
  function RoundOpening(sol: LpSolution): Opening {
    RoundY(sol.y)
  }

  /**
   * The work of one call of `branch_and_bound` on its own node: solve the
   * relaxation, record the node, prune it, keep it as the incumbent when
   * integral and improving, or branch on the most fractional `y`.
   */
  function Visit(oracle: Oracle, problem: string, cs: Path, parentId: nat, nodeId: nat, st: State): (s: Step)
  {
    var (lp, sol) := SolveLpRelaxation(oracle, problem, cs);
    var rec := NodeRecord(nodeId, parentId, lp, sol, Open, false, false);
    if Prunes(st.best, lp) then Leaf(st.(log := st.log + [rec.(action := Pruned)]))
    else
      var ys := sol.value.y;
      match MostFractional(ys)
      case None =>
        if Improves(st.best, lp) then
          Leaf(Search(lp, Some(RoundY(ys)), st.log + [rec.(action := PrunedInteger, isInteger := true, newIncumbent := true)]))
        else
          Leaf(st.(log := st.log + [rec.(action := PrunedInteger, isInteger := true)]))
      case Some(i) =>
        var (le, ge) := Branches(cs, BranchName(ys[i].0), ys[i].1);
        Split(st.(log := st.log + [rec.(action := Branched)]), le, ge)
  }

  /**
   * One step appends exactly one record, with this node's id and parent and
   * the relaxation's bound; the record is pruned exactly when the prune test
   * holds, branched exactly when the step splits, and marked as a new
   * incumbent whenever it is integral. A split keeps the best value and the
   * incumbent; any other step keeps them or the new record installs an
   * improvement.
   */
  lemma VisitFacts(oracle: Oracle, problem: string, cs: Path, parentId: nat, nodeId: nat, st: State)
    ensures var s := Visit(oracle, problem, cs, parentId, nodeId, st);
      var rec := s.after.log[|st.log|];
      && |s.after.log| == |st.log| + 1 && s.after.log[..|st.log|] == st.log
      && rec.id == nodeId && rec.parent == parentId
      && rec.lpValue == SolveLpRelaxation(oracle, problem, cs).0
      && (rec.action == Pruned <==> Prunes(st.best, rec.lpValue))
      && (s.Split? <==> rec.action == Branched)
      && (rec.isInteger ==> rec.newIncumbent)
      && (s.Split? ==> s.after.best == st.best && s.after.incumbent == st.incumbent)
      && (|| (s.after.best == st.best && s.after.incumbent == st.incumbent)
          || (Improves(st.best, s.after.best) && InstalledBy(RoundOpening, s.after, rec)))
  {
  }

  /**
   * A branched node's children add `y_i <= floor(v)` and `y_i >= ceil(v)`
   * for the most fractional variable `y_i` of the node's relaxation, whose
   * value `v` lies strictly between the two bounds; the bounds are
   * consecutive integers, so together they exclude exactly the open
   * interval around `v`.
   */
  lemma VisitChildren(oracle: Oracle, problem: string, cs: Path, parentId: nat, nodeId: nat, st: State)
    requires Visit(oracle, problem, cs, parentId, nodeId, st).Split?
    ensures var s := Visit(oracle, problem, cs, parentId, nodeId, st);
      && SolveLpRelaxation(oracle, problem, cs).1.Some?
      && var ys := SolveLpRelaxation(oracle, problem, cs).1.value.y;
      && MostFractional(ys).Some? && MostFractional(ys).value < |ys|
      && var i := MostFractional(ys).value;
      && s.le == Extend(cs, Constraint(BranchName(ys[i].0), Le, Floor(ys[i].1)))
      && s.ge == Extend(cs, Constraint(BranchName(ys[i].0), Ge, Ceil(ys[i].1)))
      && Floor(ys[i].1) as real < ys[i].1 < Ceil(ys[i].1) as real
      && s.ge.last.bound == s.le.last.bound + 1
  {
    var sol := SolveLpRelaxation(oracle, problem, cs).1;
    var ys := sol.value.y;
    var i := MostFractional(ys).value;
    MostFractionalInSpec(ys, |ys|);
    DistZeroIffIntegral(ys[i].1);
    CeilOfFraction(ys[i].1);
  }

  /** `Visit` as the node rule of the shared depth-first recursion. */
  function Rule(oracle: Oracle, problem: string): NodeRule<LpSolution, Opening> {
    (cs: Path, parentId: nat, nodeId: nat, st: State) => Visit(oracle, problem, cs, parentId, nodeId, st)
  }

  /** Every step of the rule appends its own record, and an integral record is always a new incumbent. */
  lemma RuleMarksIntegral(oracle: Oracle, problem: string)
    ensures MarksIntegral(Rule(oracle, problem)) && AppendsOne(Rule(oracle, problem))
  {
    forall cs: Path, parentId: nat, nodeId: nat, st: State
      ensures AppendsMarked(st, Rule(oracle, problem)(cs, parentId, nodeId, st), parentId, nodeId)
    {
      VisitFacts(oracle, problem, cs, parentId, nodeId, st);
    }
    MarksIntegralAppends(Rule(oracle, problem));
  }

  /**
   * The records of one call of `branch_and_bound` form a tree in preorder:
   * after the call's own record, each is a child, with id `2p+1` or `2p+2`,
   * of an earlier branched record `p` of the same call; and the ids it
   * appends are distinct heap-numbered descendants of the call's own id.
   */
  lemma SearchShape(oracle: Oracle, problem: string, cs: Path, parentId: nat, nodeId: nat, fuel: nat, st: State)
    ensures var out := Explore(Rule(oracle, problem), cs, parentId, nodeId, fuel, st);
      && |out.log| >= |st.log| && out.log[..|st.log|] == st.log
      && (fuel > 0 ==> |out.log| > |st.log| && out.log[|st.log|].id == nodeId && out.log[|st.log|].parent == parentId)
      && Shaped(out.log, |st.log|)
      && IdsBelow(out.log, |st.log|, nodeId) && IdsDistinct(out.log, |st.log|)
  {
    RuleMarksIntegral(oracle, problem);
    ExplorePrefix(Rule(oracle, problem), cs, parentId, nodeId, fuel, st,
                  Explore(Rule(oracle, problem), cs, parentId, nodeId, fuel, st));
    ExploreShape(Rule(oracle, problem), cs, parentId, nodeId, fuel, st,
                 Explore(Rule(oracle, problem), cs, parentId, nodeId, fuel, st));
    ExploreIds(Rule(oracle, problem), cs, parentId, nodeId, fuel, st,
               Explore(Rule(oracle, problem), cs, parentId, nodeId, fuel, st));
  }

  /**
   * Given the prune test, an integral node that is not pruned always
   * becomes the new incumbent: every record a call appends that is marked
   * integral is marked as a new incumbent.
   */
  lemma SearchIntegralImproves(oracle: Oracle, problem: string, cs: Path, parentId: nat, nodeId: nat,
                               fuel: nat, st: State)
    ensures IntegralMarked(Explore(Rule(oracle, problem), cs, parentId, nodeId, fuel, st).log, |st.log|)
  {
    RuleMarksIntegral(oracle, problem);
    ExploreIntegralMarked(Rule(oracle, problem), cs, parentId, nodeId, fuel, st);
  }

  /** Improving on an improvement improves on the start. */
  lemma ImprovesTransitive()
    ensures Transitive(Improves)
  {
    forall a: ExtReal, b: ExtReal, c: ExtReal | Improves(a, b) && Improves(b, c)
      ensures Improves(a, c)
    {
    }
  }

  /**
   * The incumbent after a call either is the one it started from, or it
   * improves on the starting value by more than `1e-6` and was installed by
   * one of the records the call appended: an integral node whose rounded
   * `y` is the stored solution and whose bound is the stored value.
   */
  lemma ExploreIncumbent(oracle: Oracle, problem: string, cs: Path, parentId: nat, nodeId: nat,
                         fuel: nat, st: State)
    ensures KeepsOrInstalls(Improves, RoundOpening, st, Explore(Rule(oracle, problem), cs, parentId, nodeId, fuel, st))
  {
    forall cs': Path, p: nat, n: nat, st': State
      ensures KeepsOrInstalls(Improves, RoundOpening, st', Rule(oracle, problem)(cs', p, n, st').after)
    {
      VisitFacts(oracle, problem, cs', p, n, st');
      var s := Visit(oracle, problem, cs', p, n, st');
      if !(s.after.best == st'.best && s.after.incumbent == st'.incumbent) {
        assert InstalledBy(RoundOpening, s.after, s.after.log[|st'.log|]);
      }
    }
    ImprovesTransitive();
    ExploreKeepsOrInstalls(Rule(oracle, problem), Improves, RoundOpening, cs, parentId, nodeId, fuel, st);
  }

  /** The best value never increases. */
  lemma ExploreBestMonotone(oracle: Oracle, problem: string, cs: Path, parentId: nat,
                            nodeId: nat, fuel: nat, st: State)
    ensures AtMost(Explore(Rule(oracle, problem), cs, parentId, nodeId, fuel, st).best, st.best)
  {
    var out := Explore(Rule(oracle, problem), cs, parentId, nodeId, fuel, st);
    ExploreIncumbent(oracle, problem, cs, parentId, nodeId, fuel, st);
    ExtOrderFacts(out.best, Shift(st.best, -Eps), st.best);
    ShiftMonotone(st.best, st.best, -Eps);
  }

  // ---------------------------------------------------------------------------
  // The module state

  /** The globals of `beb_proj7_4.py` and the oracle that stands for Gurobi. */
  class Engine {
    const oracle: Oracle
    var problemName: string
    var best: ExtReal
    var incumbent: Option<Opening>
    var treeLog: seq<NodeRecord<LpSolution>>

    /** The module-level initial values. */
    constructor(oracle: Oracle)
      ensures this.oracle == oracle && problemName == ""
      ensures best == PosInf && incumbent == None && treeLog == []
    {
      this.oracle := oracle;
      problemName := "";
      best := PosInf;
      incumbent := None;
      treeLog := [];
    }

    function State(): State
      reads this
    {
      Search(best, incumbent, treeLog)
    }

    /**
     * The body of `branch_and_bound` up to its recursive calls: solve the
     * relaxation, append the node's record and finish it in place as pruned,
     * integral (installing the incumbent when it improves) or branched, and
     * in the last case build the two children's constraints.
     */
    method VisitNode(cs: Path, parentId: nat, nodeId: nat)
      returns (branch: bool, constrLe: Path, constrGe: Path)
      modifies this`best, this`incumbent, this`treeLog
      ensures problemName == old(problemName)
      ensures Visit(oracle, problemName, cs, parentId, nodeId, old(State())) ==
        if branch then Split(State(), constrLe, constrGe) else Leaf(State())
    {
      var (lpValue, lpSolution) := SolveLpRelaxation(oracle, problemName, cs);
      var k := |treeLog|;
      treeLog := treeLog + [NodeRecord(nodeId, parentId, lpValue, lpSolution, Open, false, false)];

      if AtMost(Shift(best, -Eps), lpValue) || lpValue == PosInf {
        treeLog := treeLog[k := treeLog[k].(action := Pruned)];
        return false, cs, cs;
      }

      var ySol := lpSolution.value.y;
      var isInteger, varToBranch, valToBranch := ScanFractional(ySol);

      if isInteger {
        treeLog := treeLog[k := treeLog[k].(action := PrunedInteger, isInteger := true)];
        if Below(lpValue, Shift(best, -Eps)) {
          best := lpValue;
          incumbent := Some(RoundY(ySol));
          treeLog := treeLog[k := treeLog[k].(newIncumbent := true)];
        }
        return false, cs, cs;
      }

      treeLog := treeLog[k := treeLog[k].(action := Branched)];
      var floorVal := Floor(valToBranch);
      var ceilVal := Ceil(valToBranch);
      constrLe := Extend(cs, Constraint(varToBranch.value, Le, floorVal));
      constrGe := Extend(cs, Constraint(varToBranch.value, Ge, ceilVal));
      branch := true;
    }

    /**
     * `branch_and_bound(current_constraints, parent_id, node_id)`: the state
     * afterwards is the one `Explore` describes.
     */
    method BranchAndBound(cs: Path, parentId: nat, nodeId: nat, fuel: nat)
      modifies this`best, this`incumbent, this`treeLog
      ensures problemName == old(problemName)
      ensures State() == Explore(Rule(oracle, problemName), cs, parentId, nodeId, fuel, old(State()))
      decreases fuel, 1
    {
      if fuel == 0 {
        return;
      }
      ghost var st0 := State();
      var branch, constrLe, constrGe := VisitNode(cs, parentId, nodeId);
      ghost var st1 := State();
      ghost var step := if branch then Split(st1, constrLe, constrGe) else Leaf(st1);
      assert Visit(oracle, problemName, cs, parentId, nodeId, st0) == step;
      if branch {
        ExploreChildren(constrLe, constrGe, nodeId, fuel - 1);
        assert step.le == constrLe && step.ge == constrGe && step.after == st1;
      }
      assert Rule(oracle, problemName)(cs, parentId, nodeId, st0) == step;
      ExploreStep(Rule(oracle, problemName), cs, parentId, nodeId, fuel, st0, step, State());
    }

    /** The two recursive calls of a branched node, `<=` child first. */
    method ExploreChildren(le: Path, ge: Path, nodeId: nat, fuel: nat)
      modifies this`best, this`incumbent, this`treeLog
      ensures problemName == old(problemName)
      ensures State() == Explore(Rule(oracle, problemName), ge, nodeId, nodeId * 2 + 2, fuel,
                                 Explore(Rule(oracle, problemName), le, nodeId, nodeId * 2 + 1, fuel, old(State())))
      decreases fuel, 2
    {
      BranchAndBound(le, nodeId, nodeId * 2 + 1, fuel);
      BranchAndBound(ge, nodeId, nodeId * 2 + 2, fuel);
    }

    /**
     * The reset and root call of `run_problem_and_log`: best value `+inf`,
     * no solution, an empty log, then node 1 with parent 0 and no
     * constraints, so a run does not depend on any earlier one.
     */
    method RunProblemAndLog(pKey: string, fuel: nat)
      modifies this
      ensures problemName == pKey
      ensures State() == Explore(Rule(oracle, pKey), Root, 0, 1, fuel, Search(PosInf, None, []))
      ensures fuel > 0 ==> |treeLog| > 0 && treeLog[0].id == 1 && treeLog[0].parent == 0
      ensures Shaped(treeLog, 0) && IdsBelow(treeLog, 0, 1)
      ensures forall i, j :: 0 <= i < j < |treeLog| ==> treeLog[i].id != treeLog[j].id
    {
      problemName := pKey;
      best := PosInf;
      incumbent := None;
      treeLog := [];
      BranchAndBound(Root, 0, 1, fuel);
      SearchShape(oracle, pKey, Root, 0, 1, fuel, Search(PosInf, None, []));
      IdsDistinctRecords(treeLog, 0);
    }
  }
}
