/**
 * The branch-and-bound engine of `beb_proj7_ex1.py`: a maximisation over
 * two-variable integer programs whose relaxations are solved by an LP
 * oracle. It branches on `x` or `y`, whichever is further from an integer
 * (`x` on a tie), logs one record per node in depth-first preorder, and
 * keeps the incumbent in module globals.
 */
module IntegerProgram {
  import opened Numeric
  import opened SearchTree
  import opened DepthFirst

  /** An optimal LP solution `{'x': x.X, 'y': y.X}`. */
  datatype Point = Point(x: real, y: real)

  /** The incumbent solution `{'x': round(x_val), 'y': round(y_val)}`. */
  datatype IntPoint = IntPoint(x: int, y: int)

  /** The Gurobi relaxation as a deterministic function of the problem name and the branching constraints. */
  type Oracle = (string, Path) -> LpOutcome<Point>

  type State = Search<Point, IntPoint>

  type Step = DepthFirst.Step<Point, IntPoint>

  /**
   * `solve_lp_relaxation`: the objective and the solution at an optimum;
   * `(-math.inf, None)` for any other status and for a Gurobi error.
   */
  function SolveLpRelaxation(oracle: Oracle, problem: string, cs: Path): (out: (ExtReal, Option<Point>))
    ensures out.0 != PosInf
    ensures out.0.Finite? <==> out.1.Some?
    ensures out.0 == NegInf <==> oracle(problem, cs).NotOptimal?
  {
    match oracle(problem, cs)
    case Optimal(v, sol) => (Finite(v), Some(sol))
    case NotOptimal => (NegInf, None)
  }

  /** `lp_value <= global_best_integer_value + 1e-6 or lp_value == -math.inf`. */
  predicate Prunes(best: ExtReal, lp: ExtReal) {
    AtMost(lp, Shift(best, Eps)) || lp == NegInf
  }

  /** `lp_value > global_best_integer_value + 1e-6`. */
  predicate Improves(best: ExtReal, lp: ExtReal) {
    Below(Shift(best, Eps), lp)
  }

  /** Both coordinates are within `1e-6` of an integer. */
  predicate Integral(p: Point) {
    NearInteger(p.x) && NearInteger(p.y)
  }

  /** The incumbent solution an integral node installs: both coordinates rounded. */
  function RoundPoint(p: Point): IntPoint {
    IntPoint(Round(p.x), Round(p.y))
  }

  /**
   * The choice of `var_to_branch` and `val_to_branch`: `x` when its
   * distance to an integer is above `1e-6` and at least that of `y`,
   * otherwise `y` when its distance is above `1e-6`, otherwise nothing.
   */
  function ChooseBranch(p: Point): Option<(string, real)> {
    var xFrac := Dist(p.x);
    var yFrac := Dist(p.y);
    if xFrac > Eps && xFrac >= yFrac then Some(("x", p.x))
    else if yFrac > Eps then Some(("y", p.y))
    else None
  }

  /**
   * The chosen variable is the one further from an integer, `x` on a tie,
   * its value is not an integer, and nothing is chosen exactly when both
   * distances are at most `1e-6`.
   */
  lemma ChooseBranchSpec(p: Point)
    ensures var r := ChooseBranch(p);
      && (r.None? <==> Dist(p.x) <= Eps && Dist(p.y) <= Eps)
      && (r.Some? ==> Dist(r.value.1) > Eps && !IsIntegral(r.value.1))
      && (r.Some? ==>
            || (r.value == ("x", p.x) && Dist(p.y) <= Dist(p.x))
            || (r.value == ("y", p.y) && Dist(p.x) < Dist(p.y)))
  {
    DistZeroIffIntegral(p.x);
    DistZeroIffIntegral(p.y);
  }

  // ---------------------------------------------------------------------------
  // The search

  /**
   * The work of one call of `branch_and_bound` on its own node: solve the
   * relaxation, record the node, prune it, keep it as the incumbent when
   * integral and improving, or mark it branched and branch on the chosen
   * variable, if any.
   */
  function Visit(oracle: Oracle, problem: string, cs: Path, parentId: nat, nodeId: nat, st: State): (s: Step)
  {
    var (lp, sol) := SolveLpRelaxation(oracle, problem, cs);
    var rec := NodeRecord(nodeId, parentId, lp, sol, Open, false, false);
    if Prunes(st.best, lp) then Leaf(st.(log := st.log + [rec.(action := Pruned)]))
    else
      var p := sol.value;
      if Integral(p) then
        if Improves(st.best, lp) then
          Leaf(Search(lp, Some(RoundPoint(p)), st.log + [rec.(action := PrunedInteger, isInteger := true, newIncumbent := true)]))
        else
          Leaf(st.(log := st.log + [rec.(action := PrunedInteger, isInteger := true)]))
      else
        var branched := st.(log := st.log + [rec.(action := Branched)]);
        match ChooseBranch(p)
        case None => Leaf(branched)
        case Some((name, v)) =>
          var (le, ge) := Branches(cs, name, v);
          Split(branched, le, ge)
  }

  /**
   * One step appends exactly one record, with this node's id and parent and
   * the relaxation's bound; the record is pruned exactly when the prune
   * test holds, branched whenever the step splits, and marked as a new
   * incumbent whenever it is integral. A split keeps the best value and
   * the incumbent; any other step keeps them or the new record installs an
   * improvement.
   */
  lemma VisitFacts(oracle: Oracle, problem: string, cs: Path, parentId: nat, nodeId: nat, st: State)
    ensures var s := Visit(oracle, problem, cs, parentId, nodeId, st);
      var rec := s.after.log[|st.log|];
      && |s.after.log| == |st.log| + 1 && s.after.log[..|st.log|] == st.log
      && rec.id == nodeId && rec.parent == parentId
      && rec.lpValue == SolveLpRelaxation(oracle, problem, cs).0
      && (rec.action == Pruned <==> Prunes(st.best, rec.lpValue))
      && (s.Split? ==> rec.action == Branched)
      && (rec.isInteger ==> rec.newIncumbent)
      && (s.Split? ==> s.after.best == st.best && s.after.incumbent == st.incumbent)
      && (|| (s.after.best == st.best && s.after.incumbent == st.incumbent)
          || (Improves(st.best, s.after.best) && InstalledBy(RoundPoint, s.after, rec)))
  {
  }

  /**
   * A node is recorded as branched but gets no children exactly when it is
   * not pruned, one coordinate is at distance exactly `1e-6` from an
   * integer and the other at most that: the integrality test uses `< 1e-6`
   * and the choice of the branching variable `> 1e-6`, so such a node
   * passes neither.
   */
  lemma BranchedWithoutChildren(oracle: Oracle, problem: string, cs: Path, parentId: nat, nodeId: nat, st: State)
    ensures var s := Visit(oracle, problem, cs, parentId, nodeId, st);
      var (lp, sol) := SolveLpRelaxation(oracle, problem, cs);
      (s.Leaf? && s.after.log[|st.log|].action == Branched) <==>
        (&& !Prunes(st.best, lp)
         && Dist(sol.value.x) <= Eps && Dist(sol.value.y) <= Eps
         && (Dist(sol.value.x) == Eps || Dist(sol.value.y) == Eps))
  {
  }

  /**
   * A branched node's children add `v <= floor(val)` and `v >= ceil(val)`
   * on the variable `v` that `ChooseBranch` picks, whose value `val` lies
   * strictly between the two bounds, which are consecutive integers.
   */
  lemma VisitChildren(oracle: Oracle, problem: string, cs: Path, parentId: nat, nodeId: nat, st: State)
    requires Visit(oracle, problem, cs, parentId, nodeId, st).Split?
    ensures var s := Visit(oracle, problem, cs, parentId, nodeId, st);
      && SolveLpRelaxation(oracle, problem, cs).1.Some?
      && var c := ChooseBranch(SolveLpRelaxation(oracle, problem, cs).1.value);
      && c.Some?
      && s.le == Extend(cs, Constraint(c.value.0, Le, Floor(c.value.1)))
      && s.ge == Extend(cs, Constraint(c.value.0, Ge, Ceil(c.value.1)))
      && Floor(c.value.1) as real < c.value.1 < Ceil(c.value.1) as real
    ensures var s := Visit(oracle, problem, cs, parentId, nodeId, st);
      var p := SolveLpRelaxation(oracle, problem, cs).1.value;
      && s.le.Extend? && s.ge.Extend? && s.le.parent == cs && s.ge.parent == cs
      && s.le.last.name == s.ge.last.name
      && s.le.last.relation == Le && s.ge.last.relation == Ge
      && s.ge.last.bound == s.le.last.bound + 1
      && var v := if s.le.last.name == "x" then p.x else p.y;
         s.le.last.bound as real < v < s.ge.last.bound as real
  {
    var p := SolveLpRelaxation(oracle, problem, cs).1.value;
    ChooseBranchSpec(p);
    CeilOfFraction(ChooseBranch(p).value.1);
  }

  /** `Visit` as the node rule of the shared depth-first recursion. */
  function Rule(oracle: Oracle, problem: string): NodeRule<Point, IntPoint> {
    (cs: Path, parentId: nat, nodeId: nat, st: State) => Visit(oracle, problem, cs, parentId, nodeId, st)
  }

  /** Every step of the rule appends its own record, and an integral record is always a new incumbent. */
  lemma RuleMarksIntegral(oracle: Oracle, problem: string)
    ensures MarksIntegral(Rule(oracle, problem)) && AppendsOne(Rule(oracle, problem))
  {
    forall cs: Path, parentId: nat, nodeId: nat, st: State
      ensures AppendsMarked(st, Rule(oracle, problem)(cs, parentId, nodeId, st), parentId, nodeId)
    {
      VisitFacts(oracle, problem, cs, parentId, nodeId, st);
    }
    MarksIntegralAppends(Rule(oracle, problem));
  }

  /**
   * The records of one call of `branch_and_bound` form a tree in preorder:
   * after the call's own record, each is a child, with id `2p+1` or `2p+2`,
   * of an earlier branched record `p` of the same call; and the ids it
   * appends are distinct heap-numbered descendants of the call's own id.
   */
  lemma SearchShape(oracle: Oracle, problem: string, cs: Path, parentId: nat, nodeId: nat, fuel: nat, st: State)
    ensures var out := Explore(Rule(oracle, problem), cs, parentId, nodeId, fuel, st);
      && |out.log| >= |st.log| && out.log[..|st.log|] == st.log
      && (fuel > 0 ==> |out.log| > |st.log| && out.log[|st.log|].id == nodeId && out.log[|st.log|].parent == parentId)
      && Shaped(out.log, |st.log|)
      && IdsBelow(out.log, |st.log|, nodeId) && IdsDistinct(out.log, |st.log|)
  {
    RuleMarksIntegral(oracle, problem);
    ExplorePrefix(Rule(oracle, problem), cs, parentId, nodeId, fuel, st,
                  Explore(Rule(oracle, problem), cs, parentId, nodeId, fuel, st));
    ExploreShape(Rule(oracle, problem), cs, parentId, nodeId, fuel, st,
                 Explore(Rule(oracle, problem), cs, parentId, nodeId, fuel, st));
    ExploreIds(Rule(oracle, problem), cs, parentId, nodeId, fuel, st,
               Explore(Rule(oracle, problem), cs, parentId, nodeId, fuel, st));
  }

  /**
   * Given the prune test, an integral node that is not pruned always
   * becomes the new incumbent: every record a call appends that is marked
   * integral is marked as a new incumbent.
   */
  lemma SearchIntegralImproves(oracle: Oracle, problem: string, cs: Path, parentId: nat, nodeId: nat,
                               fuel: nat, st: State)
    ensures IntegralMarked(Explore(Rule(oracle, problem), cs, parentId, nodeId, fuel, st).log, |st.log|)
  {
    RuleMarksIntegral(oracle, problem);
    ExploreIntegralMarked(Rule(oracle, problem), cs, parentId, nodeId, fuel, st);
  }

  /** Improving on an improvement improves on the start. */
  lemma ImprovesTransitive()
    ensures Transitive(Improves)
  {
    forall a: ExtReal, b: ExtReal, c: ExtReal | Improves(a, b) && Improves(b, c)
      ensures Improves(a, c)
    {
    }
  }

  /**
   * The incumbent after a call either is the one it started from, or it
   * improves on the starting value by more than `1e-6` and was installed by
   * one of the records the call appended: an integral node whose rounded
   * coordinates are the stored solution and whose bound is the stored value.
   */
  lemma ExploreIncumbent(oracle: Oracle, problem: string, cs: Path, parentId: nat, nodeId: nat,
                         fuel: nat, st: State)
    ensures KeepsOrInstalls(Improves, RoundPoint, st, Explore(Rule(oracle, problem), cs, parentId, nodeId, fuel, st))
  {
    forall cs': Path, p: nat, n: nat, st': State
      ensures KeepsOrInstalls(Improves, RoundPoint, st', Rule(oracle, problem)(cs', p, n, st').after)
    {
      VisitFacts(oracle, problem, cs', p, n, st');
      var s := Visit(oracle, problem, cs', p, n, st');
      if !(s.after.best == st'.best && s.after.incumbent == st'.incumbent) {
        assert InstalledBy(RoundPoint, s.after, s.after.log[|st'.log|]);
      }
    }
    ImprovesTransitive();
    ExploreKeepsOrInstalls(Rule(oracle, problem), Improves, RoundPoint, cs, parentId, nodeId, fuel, st);
  }

  /** The best value never decreases. */
  lemma ExploreBestMonotone(oracle: Oracle, problem: string, cs: Path, parentId: nat,
                            nodeId: nat, fuel: nat, st: State)
    ensures AtMost(st.best, Explore(Rule(oracle, problem), cs, parentId, nodeId, fuel, st).best)
  {
    var out := Explore(Rule(oracle, problem), cs, parentId, nodeId, fuel, st);
    ExploreIncumbent(oracle, problem, cs, parentId, nodeId, fuel, st);
    ExtOrderFacts(st.best, Shift(st.best, Eps), out.best);
    ShiftMonotone(st.best, st.best, Eps);
  }

  // ---------------------------------------------------------------------------
  // The module state

  /** The globals of `beb_proj7_ex1.py` and the oracle that stands for Gurobi. */
  class Engine {
    const oracle: Oracle
    var problemName: string
    var best: ExtReal
    var incumbent: Option<IntPoint>
    var treeLog: seq<NodeRecord<Point>>

    /** The module-level initial values. */
    constructor(oracle: Oracle)
      ensures this.oracle == oracle && problemName == ""
      ensures best == NegInf && incumbent == None && treeLog == []
    {
      this.oracle := oracle;
      problemName := "";
      best := NegInf;
      incumbent := None;
      treeLog := [];
    }

    function State(): State
      reads this
    {
      Search(best, incumbent, treeLog)
    }

    /**
     * The body of `branch_and_bound` up to its recursive calls: solve the
     * relaxation, append the node's record and finish it in place as pruned,
     * integral (installing the incumbent when it improves) or branched, and
     * in the last case pick the branching variable and build the two
     * children's constraints, or stop when no variable qualifies.
     */
    method VisitNode(cs: Path, parentId: nat, nodeId: nat)
      returns (branch: bool, constrLe: Path, constrGe: Path)
      modifies this`best, this`incumbent, this`treeLog
      ensures problemName == old(problemName)
      ensures Visit(oracle, problemName, cs, parentId, nodeId, old(State())) ==
        if branch then Split(State(), constrLe, constrGe) else Leaf(State())
    {
      var (lpValue, lpSolution) := SolveLpRelaxation(oracle, problemName, cs);
      var k := |treeLog|;
      treeLog := treeLog + [NodeRecord(nodeId, parentId, lpValue, lpSolution, Open, false, false)];

      if AtMost(lpValue, Shift(best, Eps)) || lpValue == NegInf {
        treeLog := treeLog[k := treeLog[k].(action := Pruned)];
        return false, cs, cs;
      }

      var xVal := lpSolution.value.x;
      var yVal := lpSolution.value.y;
      var xIsInt := Dist(xVal) < Eps;
      var yIsInt := Dist(yVal) < Eps;

      if xIsInt && yIsInt {
        treeLog := treeLog[k := treeLog[k].(action := PrunedInteger, isInteger := true)];
        if Below(Shift(best, Eps), lpValue) {
          best := lpValue;
          incumbent := Some(IntPoint(Round(xVal), Round(yVal)));
          treeLog := treeLog[k := treeLog[k].(newIncumbent := true)];
        }
        return false, cs, cs;
      }

      treeLog := treeLog[k := treeLog[k].(action := Branched)];
      var xFrac := Dist(xVal);
      var yFrac := Dist(yVal);
      var varToBranch, valToBranch;
      if xFrac > Eps && xFrac >= yFrac {
        varToBranch, valToBranch := "x", xVal;
      } else if yFrac > Eps {
        varToBranch, valToBranch := "y", yVal;
      } else {
        return false, cs, cs;
      }

      var floorVal := Floor(valToBranch);
      var ceilVal := Ceil(valToBranch);
      constrLe := Extend(cs, Constraint(varToBranch, Le, floorVal));
      constrGe := Extend(cs, Constraint(varToBranch, Ge, ceilVal));
      branch := true;
    }

    /**
     * `branch_and_bound(current_constraints, parent_id, node_id)`: the state
     * afterwards is the one `Explore` describes.
     */
    method BranchAndBound(cs: Path, parentId: nat, nodeId: nat, fuel: nat)
      modifies this`best, this`incumbent, this`treeLog
      ensures problemName == old(problemName)
      ensures State() == Explore(Rule(oracle, problemName), cs, parentId, nodeId, fuel, old(State()))
      decreases fuel, 1
    {
      if fuel == 0 {
        return;
      }
      ghost var st0 := State();
      var branch, constrLe, constrGe := VisitNode(cs, parentId, nodeId);
      ghost var st1 := State();
      ghost var step := if branch then Split(st1, constrLe, constrGe) else Leaf(st1);
      assert Visit(oracle, problemName, cs, parentId, nodeId, st0) == step;
      if branch {
        ExploreChildren(constrLe, constrGe, nodeId, fuel - 1);
        assert step.le == constrLe && step.ge == constrGe && step.after == st1;
      }
      assert Rule(oracle, problemName)(cs, parentId, nodeId, st0) == step;
      ExploreStep(Rule(oracle, problemName), cs, parentId, nodeId, fuel, st0, step, State());
    }

    /** The two recursive calls of a branched node, `<=` child first. */
    method ExploreChildren(le: Path, ge: Path, nodeId: nat, fuel: nat)
      modifies this`best, this`incumbent, this`treeLog
      ensures problemName == old(problemName)
      ensures State() == Explore(Rule(oracle, problemName), ge, nodeId, nodeId * 2 + 2, fuel,
                                 Explore(Rule(oracle, problemName), le, nodeId, nodeId * 2 + 1, fuel, old(State())))
      decreases fuel, 2
    {
      BranchAndBound(le, nodeId, nodeId * 2 + 1, fuel);
      BranchAndBound(ge, nodeId, nodeId * 2 + 2, fuel);
    }

    /**
     * The reset and root call of `run_problem_and_log`: best value `-inf`,
     * no solution, an empty log, then node 1 with parent 0 and no
     * constraints, so a run does not depend on any earlier one.
     */
    method RunProblemAndLog(pKey: string, fuel: nat)
      modifies this
      ensures problemName == pKey
      ensures State() == Explore(Rule(oracle, pKey), Root, 0, 1, fuel, Search(NegInf, None, []))
      ensures fuel > 0 ==> |treeLog| > 0 && treeLog[0].id == 1 && treeLog[0].parent == 0
      ensures Shaped(treeLog, 0) && IdsBelow(treeLog, 0, 1)
      ensures forall i, j :: 0 <= i < j < |treeLog| ==> treeLog[i].id != treeLog[j].id
    {
      problemName := pKey;
      best := NegInf;
      incumbent := None;
      treeLog := [];
      BranchAndBound(Root, 0, 1, fuel);
      SearchShape(oracle, pKey, Root, 0, 1, fuel, Search(NegInf, None, []));
      IdsDistinctRecords(treeLog, 0);
    }
  }
}
