/**
 * What the two Gurobi-based branch-and-bound engines (`beb_proj7_4.py` and
 * `beb_proj7_ex1.py`) share: the branching constraints, the oracle outcome,
 * the node record of `tree_log`, the engine state, and
 * `calculate_tree_positions`, which is the same code in both files.
 */
module SearchTree {
  import opened Numeric

  /** The bound type of a branching constraint, `'<='` or `'>='`. */
  datatype Relation = Le | Ge

  /** A branching constraint `(var_name, bound_type, value)`. */
  datatype Constraint = Constraint(name: string, relation: Relation, bound: int)

  /**
   * The branching constraints of a node. Every child list is its parent's
   * list with one constraint added at the end, and a parent's list is never
   * changed, so the lists form a tree of extensions from the root's `[]`.
   */
  datatype Path = Root | Extend(parent: Path, last: Constraint)

  /** The list `current_constraints` that a path stands for, oldest constraint first. */
  function Constraints(p: Path): (cs: seq<Constraint>)
    ensures |cs| == Depth(p)
    ensures p.Extend? ==> cs == Constraints(p.parent) + [p.last]
  {
    match p
    case Root => []
    case Extend(parent, c) => Constraints(parent) + [c]
  }

  /** The number of constraints on a path. */
  function Depth(p: Path): nat {
    match p
    case Root => 0
    case Extend(parent, _) => Depth(parent) + 1
  }

  /**
   * The two branches on a variable named `name` with LP value `v`:
   * `current_constraints + [(name, '<=', floor(v))]` and
   * `current_constraints + [(name, '>=', ceil(v))]`.
   */
  function Branches(p: Path, name: string, v: real): (children: (Path, Path)) {
    (Extend(p, Constraint(name, Le, Floor(v))), Extend(p, Constraint(name, Ge, Ceil(v))))
  }

  /**
   * Both branches keep the parent's constraints and add one on the same
   * variable. On a fractional value the two new bounds are consecutive
   * integers around `v`, so together they cut out exactly the open interval
   * between them, and `v` itself.
   */
  lemma BranchesSplit(p: Path, name: string, v: real)
    requires !IsIntegral(v)
    ensures var (le, ge) := Branches(p, name, v);
      && Constraints(le) == Constraints(p) + [Constraint(name, Le, Floor(v))]
      && Constraints(ge) == Constraints(p) + [Constraint(name, Ge, Ceil(v))]
      && ge.last.bound == le.last.bound + 1
      && (le.last.bound as real) < v < (ge.last.bound as real)
  {
    CeilOfFraction(v);
  }

  /** What the LP oracle reports: an optimum with its solution, or any other status. */
  datatype LpOutcome<S> = Optimal(objective: real, solution: S) | NotOptimal

  /** The node actions `'Aberto'`, `'Podado'`, `'Podado (Sol. Inteira)'` and `'Ramificado'`. */
  datatype Action = Open | Pruned | PrunedInteger | Branched

  /** A `node_info` entry of `tree_log`. */
  datatype NodeRecord<S> = NodeRecord(
    id: nat,
    parent: nat,
    lpValue: ExtReal,
    lpSolution: Option<S>,
    action: Action,
    isInteger: bool,
    newIncumbent: bool)

  /** The globals of an engine: the incumbent value and solution and the log. */
  datatype Search<S, I> = Search(best: ExtReal, incumbent: Option<I>, log: seq<NodeRecord<S>>)

  // ---------------------------------------------------------------------------
  // calculate_tree_positions

  /** Some record of the log has id `c` and parent `p`. */
  ghost predicate IsChild<S>(log: seq<NodeRecord<S>>, p: nat, c: nat) {
    exists k :: 0 <= k < |log| && log[k].parent == p && log[k].id == c
  }

  /** `[n['id'] for n in tree_log if n['parent'] == p]`. */
  function ChildrenOf<S>(log: seq<NodeRecord<S>>, p: nat): (ids: seq<nat>)
    ensures forall c :: c in ids <==> IsChild(log, p, c)
    decreases |log|
  {
    if |log| == 0 then []
    else
      var ids := ChildrenOf(log[..|log| - 1], p);
      assert forall k :: 0 <= k < |log| - 1 ==> log[..|log| - 1][k] == log[k];
      if log[|log| - 1].parent == p then ids + [log[|log| - 1].id] else ids
  }

  /** The ids that occur in the log. */
  function LogIds<S>(log: seq<NodeRecord<S>>): set<nat> {
    set k | 0 <= k < |log| :: log[k].id
  }

  /** The facts the BFS of `calculate_tree_positions` establishes about its `levels`. */
  ghost predicate LevelsOf<S>(log: seq<NodeRecord<S>>, levels: map<nat, nat>) {
    && 1 in levels && levels[1] == 0
    && levels.Keys <= {1} + LogIds(log)
    && (forall k :: k in levels && k != 1 ==>
          exists p :: p in levels && IsChild(log, p, k) && levels[k] == levels[p] + 1)
    && (forall p, c :: p in levels && IsChild(log, p, c) ==> c in levels)
  }

  /** Adding new keys to a subset of `u` leaves fewer elements of `u` outside. */
  lemma GrowWithin(u: set<nat>, keys0: set<nat>, keys: set<nat>, k: nat)
    requires keys0 <= keys <= u && k in keys && k !in keys0
    ensures |u - keys| < |u - keys0|
  {
    var outside := u - keys;
    var gained := keys - keys0;
    assert u - keys0 == outside + gained;
    assert outside * gained == {};
    assert |gained| >= 1 by {
      assert {k} <= gained;
    }
  }

  /** Every reached id other than 1 was reached from the reached parent `via[k]`, one level up. */
  ghost predicate ReachedVia<S>(log: seq<NodeRecord<S>>, levels: map<nat, nat>, via: map<nat, nat>) {
    forall k :: k in levels && k != 1 ==>
      k in via && via[k] in levels && IsChild(log, via[k], k) && levels[k] == levels[via[k]] + 1
  }

  /** Reaching a new child of a reached node one level below it keeps every reached id explained. */
  lemma ReachChild<S>(log: seq<NodeRecord<S>>, levels: map<nat, nat>, via: map<nat, nat>, node: nat, child: nat)
    requires ReachedVia(log, levels, via) && node in levels && child !in levels
    requires child in ChildrenOf(log, node)
    ensures ReachedVia(log, levels[child := levels[node] + 1], via[child := node])
  {
  }

  /**
   * What one pass of the inner loop of the BFS does to `levels` and the
   * queue: every child of `node` is reached, earlier levels stay, the new
   * ids are exactly children and each is appended to the queue.
   */
  ghost predicate Enqueued<S>(log: seq<NodeRecord<S>>, node: nat, levels0: map<nat, nat>, queue0: seq<nat>,
                              levels: map<nat, nat>, queue: seq<nat>) {
    && (forall k :: k in levels0 ==> k in levels && levels[k] == levels0[k])
    && (forall k :: k in levels ==> k in levels0 || k in ChildrenOf(log, node))
    && (forall c :: c in ChildrenOf(log, node) ==> c in levels)
    && (forall q :: q in queue0 ==> q in queue)
    && (forall q :: q in queue ==> q in queue0 || q in levels)
    && (forall k :: k in levels && k !in levels0 ==> k in queue)
    && (levels.Keys == levels0.Keys ==> queue == queue0)
  }

  /**
   * The ids of `cs` that are not in `seen`, each at its first occurrence, in
   * the order of `cs`: the children the inner loop of the BFS queues.
   */
  function Unseen(cs: seq<nat>, seen: set<nat>): seq<nat>
    decreases |cs|
  {
    if cs == [] then []
    else
      var n := |cs| - 1;
      var r := Unseen(cs[..n], seen);
      if cs[n] in seen || cs[n] in cs[..n] then r else r + [cs[n]]
  }

  /** `Unseen` holds exactly the ids of `cs` outside `seen`, none twice. */
  lemma {:induction false} UnseenMembers(cs: seq<nat>, seen: set<nat>)
    ensures forall k :: k in Unseen(cs, seen) <==> k in cs && k !in seen
    ensures forall p, q :: 0 <= p < q < |Unseen(cs, seen)| ==> Unseen(cs, seen)[p] != Unseen(cs, seen)[q]
    decreases |cs|
  {
    if cs != [] {
      var n := |cs| - 1;
      UnseenMembers(cs[..n], seen);
      assert cs == cs[..n] + [cs[n]];
    }
  }

  /** One more id of `cs` is queued exactly when it is neither seen nor met before. */
  lemma UnseenStep(cs: seq<nat>, seen: set<nat>, j: nat)
    requires j < |cs|
    ensures Unseen(cs[..j + 1], seen) ==
      if cs[j] in seen || cs[j] in cs[..j] then Unseen(cs[..j], seen) else Unseen(cs[..j], seen) + [cs[j]]
  {
    assert cs[..j + 1][..j] == cs[..j];
  }

  /** The exact effect of the inner loop gives the facts the outer loop relies on. */
  lemma EnqueuedExact<S>(log: seq<NodeRecord<S>>, node: nat, levels0: map<nat, nat>, queue0: seq<nat>,
                         levels: map<nat, nat>, queue: seq<nat>)
    requires queue == queue0 + Unseen(ChildrenOf(log, node), levels0.Keys)
    requires forall k :: k in levels <==> k in levels0 || k in ChildrenOf(log, node)
    requires forall k :: k in levels0 ==> levels[k] == levels0[k]
    ensures Enqueued(log, node, levels0, queue0, levels, queue)
  {
    var added := Unseen(ChildrenOf(log, node), levels0.Keys);
    UnseenMembers(ChildrenOf(log, node), levels0.Keys);
    assert forall q :: q in queue <==> q in queue0 || q in added;
  }

  /**
   * The state of the inner loop of the BFS after the first `j` of the
   * `children` of a node of level `level`: the queue has grown by the
   * unreached ones, each once, and exactly they have been reached, at
   * `level + 1`.
   */
  ghost predicate EnqueuedUpTo<S>(log: seq<NodeRecord<S>>, children: seq<nat>, level: nat, levels0: map<nat, nat>,
                                  queue0: seq<nat>, j: nat, levels: map<nat, nat>, queue: seq<nat>, via: map<nat, nat>)
  {
    && j <= |children|
    && queue == queue0 + Unseen(children[..j], levels0.Keys)
    && (forall k :: k in levels <==> k in levels0 || k in children[..j])
    && (forall k :: k in levels0 ==> levels[k] == levels0[k])
    && (forall k :: k in levels && k !in levels0 ==> levels[k] == level + 1)
    && ReachedVia(log, levels, via)
  }

  /** A child already reached is skipped. */
  lemma EnqueueSkip<S>(log: seq<NodeRecord<S>>, children: seq<nat>, level: nat, levels0: map<nat, nat>,
                       queue0: seq<nat>, j: nat, levels: map<nat, nat>, queue: seq<nat>, via: map<nat, nat>)
    requires EnqueuedUpTo(log, children, level, levels0, queue0, j, levels, queue, via)
    requires j < |children| && children[j] in levels
    ensures EnqueuedUpTo(log, children, level, levels0, queue0, j + 1, levels, queue, via)
  {
    UnseenStep(children, levels0.Keys, j);
    assert children[..j + 1] == children[..j] + [children[j]];
  }

  /** A child not reached yet gets the level below its parent `node` and joins the queue. */
  lemma EnqueueReach<S>(log: seq<NodeRecord<S>>, node: nat, children: seq<nat>, level: nat, levels0: map<nat, nat>,
                        queue0: seq<nat>, j: nat, levels: map<nat, nat>, queue: seq<nat>, via: map<nat, nat>)
    requires children == ChildrenOf(log, node) && node in levels0 && levels0[node] == level
    requires EnqueuedUpTo(log, children, level, levels0, queue0, j, levels, queue, via)
    requires j < |children| && children[j] !in levels
    ensures EnqueuedUpTo(log, children, level, levels0, queue0, j + 1,
                         levels[children[j] := level + 1], queue + [children[j]], via[children[j] := node])
  {
    var c := children[j];
    UnseenStep(children, levels0.Keys, j);
    assert c !in levels0 && c !in children[..j];
    assert queue + [c] == queue0 + (Unseen(children[..j], levels0.Keys) + [c]);
    assert children[..j + 1] == children[..j] + [c];
    assert levels[node] == level;
    ReachChild(log, levels, via, node, c);
  }

  /**
   * The inner loop of the BFS: each child of `node` not reached yet gets
   * the level below `node` and is appended to the queue, in the order of
   * `children`.
   */
  method EnqueueChildren<S>(log: seq<NodeRecord<S>>, node: nat, levels0: map<nat, nat>,
                            queue0: seq<nat>, ghost via0: map<nat, nat>)
    returns (levels: map<nat, nat>, queue: seq<nat>, ghost via: map<nat, nat>)
    requires node in levels0 && ReachedVia(log, levels0, via0) && 1 in levels0
    ensures queue == queue0 + Unseen(ChildrenOf(log, node), levels0.Keys)
    ensures forall k :: k in levels <==> k in levels0 || k in ChildrenOf(log, node)
    ensures forall k :: k in levels0 ==> levels[k] == levels0[k]
    ensures forall k :: k in levels && k !in levels0 ==> levels[k] == levels0[node] + 1
    ensures Enqueued(log, node, levels0, queue0, levels, queue)
    ensures ReachedVia(log, levels, via)
  {
    var children := ChildrenOf(log, node);
    var level := levels0[node];
    levels, queue, via := levels0, queue0, via0;
    var j := 0;
    while j < |children|
      invariant EnqueuedUpTo(log, children, level, levels0, queue0, j, levels, queue, via)
    {
      var child := children[j];
      if child in levels {
        EnqueueSkip(log, children, level, levels0, queue0, j, levels, queue, via);
      } else {
        EnqueueReach(log, node, children, level, levels0, queue0, j, levels, queue, via);
        levels := levels[child := level + 1];
        via := via[child := node];
        queue := queue + [child];
      }
      j := j + 1;
    }
    assert children[..|children|] == children;
    EnqueuedExact(log, node, levels0, queue0, levels, queue);
  }

  /** The invariant of the outer BFS loop. */
  ghost predicate BfsInv<S>(log: seq<NodeRecord<S>>, levels: map<nat, nat>, queue: seq<nat>, via: map<nat, nat>) {
    && 1 in levels && levels[1] == 0
    && levels.Keys <= {1} + LogIds(log)
    && (forall j :: 0 <= j < |queue| ==> queue[j] in levels)
    && ReachedVia(log, levels, via)
    && (forall p, c :: p in levels && p !in queue && IsChild(log, p, c) ==> c in levels)
  }

  /** One pass of the outer BFS loop keeps its invariant and reaches a new id or shortens the queue. */
  lemma BfsStep<S>(log: seq<NodeRecord<S>>, levels0: map<nat, nat>, queue0: seq<nat>, via0: map<nat, nat>,
                   levels: map<nat, nat>, queue: seq<nat>, via: map<nat, nat>)
    requires |queue0| > 0 && BfsInv(log, levels0, queue0, via0)
    requires Enqueued(log, queue0[0], levels0, queue0[1..], levels, queue) && ReachedVia(log, levels, via)
    ensures BfsInv(log, levels, queue, via)
    ensures var u := {1} + LogIds(log);
      || |u - levels.Keys| < |u - levels0.Keys|
      || (levels.Keys == levels0.Keys && |queue| < |queue0|)
  {
    var u := {1} + LogIds(log);
    var node := queue0[0];
    ChildrenLogged(log, node);
    assert levels.Keys <= u by {
      forall k | k in levels
        ensures k in u
      {
        if k !in levels0 {
          assert k in ChildrenOf(log, node);
        }
      }
    }
    assert forall j :: 0 <= j < |queue| ==> queue[j] in levels by {
      forall j | 0 <= j < |queue|
        ensures queue[j] in levels
      {
        assert queue[j] in queue;
      }
    }
    PopQueue(queue0, queue);
    forall p, c | p in levels && p !in queue && IsChild(log, p, c)
      ensures c in levels
    {
      if p == node {
        assert c in ChildrenOf(log, node);
      } else {
        assert p in levels0;
        assert p !in queue0;
      }
    }
    if levels.Keys != levels0.Keys {
      var k :| k in levels && k !in levels0;
      GrowWithin(u, levels0.Keys, levels.Keys, k);
    }
  }

  /** Whatever stays queued after the head is popped is still queued. */
  lemma PopQueue(queue0: seq<nat>, queue: seq<nat>)
    requires |queue0| > 0 && forall q :: q in queue0[1..] ==> q in queue
    ensures forall q :: q in queue0 ==> q == queue0[0] || q in queue
  {
    forall q | q in queue0
      ensures q == queue0[0] || q in queue
    {
      var j :| 0 <= j < |queue0| && queue0[j] == q;
      if j > 0 {
        assert queue0[1..][j - 1] == q;
      }
    }
  }

  /** Every listed child is a logged id. */
  lemma ChildrenLogged<S>(log: seq<NodeRecord<S>>, p: nat)
    ensures forall c :: c in ChildrenOf(log, p) ==> c in LogIds(log)
  {
    forall c | c in ChildrenOf(log, p)
      ensures c in LogIds(log)
    {
      assert IsChild(log, p, c);
      var k :| 0 <= k < |log| && log[k].parent == p && log[k].id == c;
    }
  }

  /**
   * The BFS of `calculate_tree_positions`: node 1 is at level 0, and every
   * child not yet reached gets its parent's level plus one and is queued;
   * the loop ends with every child of a reached node reached.
   */
  method AssignLevels<S>(log: seq<NodeRecord<S>>) returns (levels: map<nat, nat>)
    ensures LevelsOf(log, levels)
  {
    ghost var via: map<nat, nat> := map[];
    levels := map[1 := 0];
    var queue: seq<nat> := [1];
    while |queue| > 0
      invariant BfsInv(log, levels, queue, via)
      decreases |({1} + LogIds(log)) - levels.Keys|, |queue|
    {
      var node := queue[0];
      ghost var levels0, queue0, via0 := levels, queue, via;
      levels, queue, via := EnqueueChildren(log, node, levels, queue[1..], via);
      BfsStep(log, levels0, queue0, via0, levels, queue, via);
    }
    forall k | k in levels && k != 1
      ensures exists p :: p in levels && IsChild(log, p, k) && levels[k] == levels[p] + 1
    {
      var p := via[k];
    }
  }

  /** `max(levels.values())`. */
  method MaxLevel(levels: map<nat, nat>) returns (m: nat)
    requires levels != map[]
    ensures exists k :: k in levels && levels[k] == m
    ensures forall k :: k in levels ==> levels[k] <= m
  {
    var rest := levels.Keys;
    var first :| first in rest;
    m := levels[first];
    rest := rest - {first};
    while rest != {}
      invariant rest <= levels.Keys
      invariant exists k :: k in levels && levels[k] == m
      invariant forall k :: k in levels && k !in rest ==> levels[k] <= m
      decreases |rest|
    {
      var k :| k in rest;
      if levels[k] > m {
        m := levels[k];
      }
      rest := rest - {k};
    }
  }

  /** The ids of `log`, in log order, whose level is `l` (`nodes_per_level[l]`). */
  function LevelNodes<S>(log: seq<NodeRecord<S>>, levels: map<nat, nat>, l: nat): (ids: seq<nat>)
    ensures forall id :: id in ids <==> id in LogIds(log) && id in levels && levels[id] == l
    decreases |log|
  {
    if |log| == 0 then []
    else
      var n := |log| - 1;
      var ids := LevelNodes(log[..n], levels, l);
      assert LogIds(log) == LogIds(log[..n]) + {log[n].id} by {
        assert forall k :: 0 <= k < n ==> log[..n][k] == log[k];
      }
      var id := log[n].id;
      if id in levels && levels[id] == l then ids + [id] else ids
  }

  /** The grouping loop: every logged id that has a level is listed under that level. */
  method GroupByLevel<S>(log: seq<NodeRecord<S>>, levels: map<nat, nat>, maxLevel: nat)
    returns (perLevel: seq<seq<nat>>)
    requires forall k :: k in levels ==> levels[k] <= maxLevel
    ensures |perLevel| == maxLevel + 1
    ensures forall l :: 0 <= l < |perLevel| ==> perLevel[l] == LevelNodes(log, levels, l)
  {
    perLevel := seq(maxLevel + 1, _ => []);
    var j := 0;
    while j < |log|
      invariant 0 <= j <= |log|
      invariant |perLevel| == maxLevel + 1
      invariant forall l :: 0 <= l < |perLevel| ==> perLevel[l] == LevelNodes(log[..j], levels, l)
    {
      assert log[..j + 1][..j] == log[..j];
      var id := log[j].id;
      if id in levels {
        var l := levels[id];
        perLevel := perLevel[l := perLevel[l] + [id]];
      }
      j := j + 1;
    }
    assert log[..|log|] == log;
  }

  /** `(i + 1) * (1.0 / (n + 1)) - 0.5`, the x coordinate of the `i`-th of `n` nodes on a level. */
  function XPos(i: nat, n: nat): real {
    (i + 1) as real * (1.0 / (n + 1) as real) - 0.5
  }

  /** `-level * 0.5`, the y coordinate of a level. */
  function YPos(level: nat): real {
    -(level as real) * 0.5
  }

  /** On a level of `n` nodes the x coordinates lie strictly inside (-0.5, 0.5) and strictly increase. */
  lemma XPosSpread(i: nat, j: nat, n: nat)
    requires i < j < n
    ensures -0.5 < XPos(i, n) < XPos(j, n) < 0.5
  {
    var step := 1.0 / (n + 1) as real;
    assert step > 0.0;
    assert (n + 1) as real * step == 1.0;
    assert (i + 1) as real * step < (j + 1) as real * step;
    assert (j + 1) as real * step < (n + 1) as real * step;
  }

  /** The same bounds for a single position. */
  lemma XPosBounds(i: nat, n: nat)
    requires i < n
    ensures -0.5 < XPos(i, n) < 0.5
  {
    var step := 1.0 / (n + 1) as real;
    assert step > 0.0;
    assert (n + 1) as real * step == 1.0;
    assert (i + 1) as real * step < (n + 1) as real * step;
  }

  /**
   * `x` is the x coordinate of the last slot that `id` occupies among the
   * nodes `ids` of one level.
   */
  predicate LastXSlot(ids: seq<nat>, id: nat, x: real) {
    exists i :: 0 <= i < |ids| && ids[i] == id && x == XPos(i, |ids|) &&
      forall j :: i < j < |ids| ==> ids[j] != id
  }

  /** Slot `i` of level `l` comes before slot `i2` of level `l2` in the order the layout loop visits slots. */
  predicate SlotBefore(l: nat, i: nat, l2: nat, i2: nat) {
    l < l2 || (l == l2 && i < i2)
  }

  /** No slot strictly after `(l, i)` and strictly before `(l2, i2)` lists `id`. */
  ghost predicate NoneBetween(perLevel: seq<seq<nat>>, id: nat, l: nat, i: nat, l2: nat, i2: nat) {
    forall m, j :: 0 <= m < |perLevel| && 0 <= j < |perLevel[m]| && SlotBefore(l, i, m, j) && SlotBefore(m, j, l2, i2) ==>
      perLevel[m][j] != id
  }

  /** A visited slot that lists another id keeps `id`'s slot the last one so far. */
  lemma NoneBetweenStep(perLevel: seq<seq<nat>>, id: nat, l: nat, i: nat, l2: nat, i2: nat)
    requires l2 < |perLevel| && i2 < |perLevel[l2]| && perLevel[l2][i2] != id
    requires NoneBetween(perLevel, id, l, i, l2, i2)
    ensures NoneBetween(perLevel, id, l, i, l2, i2 + 1)
  {
  }

  /** Past the end of a level, the next slot is the start of the next level. */
  lemma NoneBetweenNextLevel(perLevel: seq<seq<nat>>, id: nat, l: nat, i: nat, l2: nat)
    requires l2 < |perLevel| && NoneBetween(perLevel, id, l, i, l2, |perLevel[l2]|)
    ensures NoneBetween(perLevel, id, l, i, l2 + 1, 0)
  {
  }

  /** `id` stands at index `i` of level `l` and its position is the one computed for that slot. */
  predicate PlacedAt(perLevel: seq<seq<nat>>, pos: map<nat, (real, real)>, id: nat, l: nat, i: nat) {
    && l < |perLevel| && i < |perLevel[l]| && perLevel[l][i] == id
    && id in pos && pos[id] == (XPos(i, |perLevel[l]|), YPos(l))
  }

  /**
   * The layout loop: each id listed on a level gets that level's y and the
   * x of its slot; an id listed twice keeps the position of its last slot.
   */
  method Layout(perLevel: seq<seq<nat>>) returns (pos: map<nat, (real, real)>)
    ensures forall id :: id in pos <==>
      exists l, i :: 0 <= l < |perLevel| && 0 <= i < |perLevel[l]| && perLevel[l][i] == id
    ensures forall id :: id in pos ==>
      exists l, i :: PlacedAt(perLevel, pos, id, l, i) && NoneBetween(perLevel, id, l, i, |perLevel|, 0)
  {
    pos := map[];
    var l := 0;
    while l < |perLevel|
      invariant 0 <= l <= |perLevel|
      invariant forall id :: id in pos <==>
        exists l', i' :: 0 <= l' < l && 0 <= i' < |perLevel[l']| && perLevel[l'][i'] == id
      invariant forall id :: id in pos ==>
        exists l', i' :: PlacedAt(perLevel, pos, id, l', i') && NoneBetween(perLevel, id, l', i', l, 0)
    {
      var nodes := perLevel[l];
      var n := |nodes|;
      ghost var pos0 := pos;
      if n > 0 {
        var i := 0;
        while i < n
          invariant 0 <= i <= n
          invariant pos.Keys == pos0.Keys + set t | 0 <= t < i :: nodes[t]
          invariant forall id :: id in pos ==>
            exists l', i' :: PlacedAt(perLevel, pos, id, l', i') && NoneBetween(perLevel, id, l', i', l, i)
        {
          ghost var before := pos;
          pos := pos[nodes[i] := (XPos(i, n), YPos(l))];
          forall id | id in pos
            ensures exists l', i' :: PlacedAt(perLevel, pos, id, l', i') && NoneBetween(perLevel, id, l', i', l, i + 1)
          {
            if id == nodes[i] {
              assert PlacedAt(perLevel, pos, id, l, i) && NoneBetween(perLevel, id, l, i, l, i + 1);
            } else {
              var l', i' :| PlacedAt(perLevel, before, id, l', i') && NoneBetween(perLevel, id, l', i', l, i);
              NoneBetweenStep(perLevel, id, l', i', l, i);
              assert PlacedAt(perLevel, pos, id, l', i');
            }
          }
          i := i + 1;
        }
      }
      forall id | id in pos
        ensures exists l', i' :: PlacedAt(perLevel, pos, id, l', i') && NoneBetween(perLevel, id, l', i', l + 1, 0)
      {
        var l', i' :| PlacedAt(perLevel, pos, id, l', i') && NoneBetween(perLevel, id, l', i', l, n);
        NoneBetweenNextLevel(perLevel, id, l', i', l);
      }
      forall id
        ensures id in pos <==>
          exists l', i' :: 0 <= l' < l + 1 && 0 <= i' < |perLevel[l']| && perLevel[l'][i'] == id
      {
        if id in pos && id !in pos0 {
          var t :| 0 <= t < n && nodes[t] == id;
          assert perLevel[l][t] == id;
        }
      }
      l := l + 1;
    }
  }

  /** The positions the layout gives to the per-level lists of the BFS levels. */
  lemma LayoutOfLevels<S>(log: seq<NodeRecord<S>>, levels: map<nat, nat>, perLevel: seq<seq<nat>>,
                          pos: map<nat, (real, real)>)
    requires forall k :: k in levels ==> levels[k] < |perLevel|
    requires forall l :: 0 <= l < |perLevel| ==> perLevel[l] == LevelNodes(log, levels, l)
    requires forall id :: id in pos <==>
      exists l, i :: 0 <= l < |perLevel| && 0 <= i < |perLevel[l]| && perLevel[l][i] == id
    requires forall id :: id in pos ==>
      exists l, i :: PlacedAt(perLevel, pos, id, l, i) && NoneBetween(perLevel, id, l, i, |perLevel|, 0)
    ensures forall id :: id in pos <==> id in levels && id in LogIds(log)
    ensures forall id :: id in pos ==> pos[id].1 == YPos(levels[id]) && -0.5 < pos[id].0 < 0.5
    ensures forall id :: id in pos ==>
      LastXSlot(LevelNodes(log, levels, levels[id]), id, pos[id].0)
  {
    forall id | id in pos
      ensures id in levels && id in LogIds(log)
      ensures pos[id].1 == YPos(levels[id]) && -0.5 < pos[id].0 < 0.5
      ensures LastXSlot(LevelNodes(log, levels, levels[id]), id, pos[id].0)
    {
      var l: nat, i: nat :| PlacedAt(perLevel, pos, id, l, i) && NoneBetween(perLevel, id, l, i, |perLevel|, 0);
      assert id in LevelNodes(log, levels, l);
      XPosBounds(i, |perLevel[l]|);
      forall j | i < j < |perLevel[l]|
        ensures perLevel[l][j] != id
      {
        assert SlotBefore(l, i, l, j) && SlotBefore(l, j, |perLevel|, 0);
      }
      assert LastXSlot(perLevel[l], id, pos[id].0);
    }
    forall id | id in levels && id in LogIds(log)
      ensures id in pos
    {
      var l := levels[id];
      var i :| 0 <= i < |perLevel[l]| && perLevel[l][i] == id;
    }
  }

  /**
   * `calculate_tree_positions`: every logged node that the BFS from node 1
   * reaches gets a position, and no other id does; its y is `-level / 2`,
   * and its x is the one of its slot among the logged nodes of its level,
   * strictly inside (-0.5, 0.5).
   */
  method TreePositions<S>(log: seq<NodeRecord<S>>) returns (pos: map<nat, (real, real)>, ghost levels: map<nat, nat>)
    ensures LevelsOf(log, levels)
    ensures forall id :: id in pos <==> id in levels && id in LogIds(log)
    ensures forall id :: id in pos ==> pos[id].1 == YPos(levels[id]) && -0.5 < pos[id].0 < 0.5
    ensures forall id :: id in pos ==>
      LastXSlot(LevelNodes(log, levels, levels[id]), id, pos[id].0)
  {
    var reached := AssignLevels(log);
    levels := reached;
    var maxLevel := MaxLevel(reached);
    var perLevel := GroupByLevel(log, reached, maxLevel);
    pos := Layout(perLevel);
    LayoutOfLevels(log, levels, perLevel, pos);
  }
}
