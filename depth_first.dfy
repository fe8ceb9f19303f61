/**
 * The recursion shared by the `branch_and_bound` functions of
 * `beb_proj7_4.py` and `beb_proj7_ex1.py`: a call works on its own node
 * through a node rule (solve the relaxation, append the node's record,
 * prune, keep an incumbent or pick a branching variable), and a branched
 * node then explores its `<=` child with id `2n+1` and its `>=` child with id
 * `2n+2`, in that order, each on the state the previous one left behind.
 * The facts here hold for every node rule that appends exactly one record
 * per call; each engine proves that of its own rule.
 */
module DepthFirst {
  import opened Numeric
  import opened SearchTree

  /** What one call does before it recurses: the state with its finished record, and the children's constraints if it branched. */
  datatype Step<S, I> = Leaf(after: Search<S, I>) | Split(after: Search<S, I>, le: Path, ge: Path)

  /** The work of one call on its own node, given its constraints, its parent's id and its own id. */
  type NodeRule<!S, !I> = (Path, nat, nat, Search<S, I>) -> Step<S, I>

  /**
   * The state after `branch_and_bound(cs, parentId, nodeId)` from `st`,
   * exploring at most `fuel` levels: the node's own step, then the two
   * subtrees of a branched node, the `<=` child first.
   */
  function Explore<S, I>(visit: NodeRule<S, I>, cs: Path, parentId: nat, nodeId: nat, fuel: nat,
                         st: Search<S, I>): Search<S, I>
    decreases fuel
  {
    if fuel == 0 then st
    else match visit(cs, parentId, nodeId, st)
      case Leaf(after) => after
      case Split(after, le, ge) =>
        var mid := Explore(visit, le, nodeId, nodeId * 2 + 1, fuel - 1, after);
        Explore(visit, ge, nodeId, nodeId * 2 + 2, fuel - 1, mid)
  }

  /** A branched call ends in the state of its `>=` subtree, run after its `<=` subtree. */
  lemma ExploreSplit<S, I>(visit: NodeRule<S, I>, cs: Path, parentId: nat, nodeId: nat, fuel: nat,
                           st: Search<S, I>, after: Search<S, I>, le: Path, ge: Path,
                           mid: Search<S, I>, out: Search<S, I>)
    requires fuel > 0 && visit(cs, parentId, nodeId, st) == Split(after, le, ge)
    requires mid == Explore(visit, le, nodeId, nodeId * 2 + 1, fuel - 1, after)
    requires out == Explore(visit, ge, nodeId, nodeId * 2 + 2, fuel - 1, mid)
    ensures Explore(visit, cs, parentId, nodeId, fuel, st) == out
  {
  }

  /**
   * A call ends in the state of its own step when that step does not
   * branch, and otherwise in the state its `>=` subtree leaves after its
   * `<=` subtree: the form an engine's recursive method meets.
   */
  lemma ExploreStep<S, I>(visit: NodeRule<S, I>, cs: Path, parentId: nat, nodeId: nat, fuel: nat,
                          st: Search<S, I>, s: Step<S, I>, result: Search<S, I>)
    requires fuel > 0 && visit(cs, parentId, nodeId, st) == s
    requires s.Leaf? ==> result == s.after
    requires s.Split? ==>
      result == Explore(visit, s.ge, nodeId, nodeId * 2 + 2, fuel - 1,
                        Explore(visit, s.le, nodeId, nodeId * 2 + 1, fuel - 1, s.after))
    ensures Explore(visit, cs, parentId, nodeId, fuel, st) == result
  {
  }

  /** Being a prefix is transitive. */
  lemma PrefixTrans<T>(a: seq<T>, b: seq<T>, c: seq<T>)
    requires |a| <= |b| <= |c| && b[..|a|] == a && c[..|b|] == b
    ensures c[..|a|] == a
  {
    assert c[..|a|] == c[..|b|][..|a|];
  }

  // ---------------------------------------------------------------------------
  // Rules that append one record per call

  /**
   * `s` is `st` with one record appended for node `nodeId` under
   * `parentId`, and that record is branched when the step splits.
   */
  ghost predicate AppendsRecord<S, I>(st: Search<S, I>, s: Step<S, I>, parentId: nat, nodeId: nat) {
    && |s.after.log| == |st.log| + 1 && s.after.log[..|st.log|] == st.log
    && s.after.log[|st.log|].id == nodeId && s.after.log[|st.log|].parent == parentId
    && (s.Split? ==> s.after.log[|st.log|].action == Branched)
  }

  /** Every call of `visit` appends exactly its own record. */
  ghost predicate AppendsOne<S(!new), I(!new)>(visit: NodeRule<S, I>) {
    forall cs: Path, parentId: nat, nodeId: nat, st: Search<S, I>
      {:trigger AppendsRecord(st, visit(cs, parentId, nodeId, st), parentId, nodeId)} ::
      AppendsRecord(st, visit(cs, parentId, nodeId, st), parentId, nodeId)
  }

  /**
   * The log only grows: the records already there stay, and a call with
   * fuel appends its own record, with its id and parent, before any other.
   */
  lemma {:induction false} ExplorePrefix<S(!new), I(!new)>(visit: NodeRule<S, I>, cs: Path, parentId: nat, nodeId: nat,
                                               fuel: nat, st: Search<S, I>, out: Search<S, I>)
    requires AppendsOne(visit) && out == Explore(visit, cs, parentId, nodeId, fuel, st)
    ensures |out.log| >= |st.log| && out.log[..|st.log|] == st.log
    ensures fuel > 0 ==> |out.log| > |st.log| && out.log[|st.log|].id == nodeId && out.log[|st.log|].parent == parentId
    decreases fuel
  {
    if fuel > 0 {
      var s := visit(cs, parentId, nodeId, st);
      assert AppendsRecord(st, s, parentId, nodeId);
      if s.Split? {
        var mid := Explore(visit, s.le, nodeId, nodeId * 2 + 1, fuel - 1, s.after);
        var last := Explore(visit, s.ge, nodeId, nodeId * 2 + 2, fuel - 1, mid);
        ExplorePrefix(visit, s.le, nodeId, nodeId * 2 + 1, fuel - 1, s.after, mid);
        ExplorePrefix(visit, s.ge, nodeId, nodeId * 2 + 2, fuel - 1, mid, last);
        PrefixTrans(s.after.log, mid.log, last.log);
        PrefixTrans(st.log, s.after.log, last.log);
        assert last.log[|st.log|] == s.after.log[|st.log|];
        ExploreSplit(visit, cs, parentId, nodeId, fuel, st, s.after, s.le, s.ge, mid, last);
      }
    }
  }

  /**
   * The logs around a branched call: its own record, then the `<=` subtree's
   * records, then the `>=` subtree's, each run extending the one before, and
   * the call ends where the `>=` subtree ends.
   */
  lemma SplitLogs<S(!new), I(!new)>(visit: NodeRule<S, I>, cs: Path, parentId: nat, nodeId: nat, fuel: nat,
                                    st: Search<S, I>, after: Search<S, I>, le: Path, ge: Path,
                                    mid: Search<S, I>, out: Search<S, I>)
    requires AppendsOne(visit)
    requires fuel > 0 && visit(cs, parentId, nodeId, st) == Split(after, le, ge)
    requires mid == Explore(visit, le, nodeId, nodeId * 2 + 1, fuel - 1, after)
    requires out == Explore(visit, ge, nodeId, nodeId * 2 + 2, fuel - 1, mid)
    ensures |after.log| == |st.log| + 1 && after.log[|st.log|].id == nodeId
    ensures after.log[|st.log|].action == Branched
    ensures |after.log| <= |mid.log| <= |out.log| && mid.log[..|after.log|] == after.log && out.log[..|mid.log|] == mid.log
    ensures |mid.log| > |after.log| ==> mid.log[|after.log|].parent == nodeId && mid.log[|after.log|].id == nodeId * 2 + 1
    ensures |out.log| > |mid.log| ==> out.log[|mid.log|].parent == nodeId && out.log[|mid.log|].id == nodeId * 2 + 2
    ensures Explore(visit, cs, parentId, nodeId, fuel, st) == out
  {
    assert AppendsRecord(st, visit(cs, parentId, nodeId, st), parentId, nodeId);
    ExplorePrefix(visit, le, nodeId, nodeId * 2 + 1, fuel - 1, after, mid);
    ExplorePrefix(visit, ge, nodeId, nodeId * 2 + 2, fuel - 1, mid, out);
    ExploreSplit(visit, cs, parentId, nodeId, fuel, st, after, le, ge, mid, out);
  }

  // ---------------------------------------------------------------------------
  // The log is a tree in preorder

  /** Record `j` is a branched node and record `k` one of its two children. */
  predicate Spawned<S>(log: seq<NodeRecord<S>>, j: nat, k: nat)
    requires j < |log| && k < |log|
  {
    && log[j].action == Branched
    && log[k].parent == log[j].id
    && (log[k].id == 2 * log[j].id + 1 || log[k].id == 2 * log[j].id + 2)
  }

  /** Record `k` was spawned by a record at or after `from` and before `k`. */
  ghost predicate HasParent<S>(log: seq<NodeRecord<S>>, from: nat, k: nat)
    requires k < |log|
  {
    exists j: nat :: from <= j < k && Spawned(log, j, k)
  }

  /** Every record after index `from` is the child of an earlier branched record at or after `from`. */
  ghost predicate Shaped<S>(log: seq<NodeRecord<S>>, from: nat) {
    forall k: nat :: from < k < |log| ==> HasParent(log, from, k)
  }

  /** Extending a log keeps the parents it already has. */
  lemma HasParentPrefix<S>(log: seq<NodeRecord<S>>, longer: seq<NodeRecord<S>>, from: nat, k: nat)
    requires |log| <= |longer| && longer[..|log|] == log && k < |log| && HasParent(log, from, k)
    ensures HasParent(longer, from, k)
  {
    var j: nat :| from <= j < k && Spawned(log, j, k);
    assert log[j] == longer[j] && log[k] == longer[k];
    assert Spawned(longer, j, k);
  }

  /** A parent found from a later index is also found from an earlier one. */
  lemma HasParentFrom<S>(log: seq<NodeRecord<S>>, from: nat, later: nat, k: nat)
    requires from <= later && k < |log| && HasParent(log, later, k)
    ensures HasParent(log, from, k)
  {
    var j: nat :| later <= j < k && Spawned(log, j, k);
  }

  /**
   * A branched record at `s0`, followed by the records of its `<=` subtree
   * (up to `|b|`) and of its `>=` subtree (up to `|c|`), each shaped and
   * each starting with the matching child, is shaped from `s0`.
   */
  lemma ShapedJoin<S>(a: seq<NodeRecord<S>>, b: seq<NodeRecord<S>>, c: seq<NodeRecord<S>>, s0: nat)
    requires |a| == s0 + 1 && a[s0].action == Branched
    requires |a| <= |b| <= |c| && b[..|a|] == a && c[..|b|] == b
    requires |b| > |a| ==> b[|a|].parent == a[s0].id && b[|a|].id == 2 * a[s0].id + 1
    requires |c| > |b| ==> c[|b|].parent == a[s0].id && c[|b|].id == 2 * a[s0].id + 2
    requires Shaped(b, |a|) && Shaped(c, |b|)
    ensures Shaped(c, s0)
  {
    PrefixTrans(a, b, c);
    assert c[s0] == a[s0];
    forall k: nat | s0 < k < |c|
      ensures HasParent(c, s0, k)
    {
      if k == s0 + 1 || k == |b| {
        if k < |b| { assert c[k] == b[k]; }
        assert Spawned(c, s0, k);
      } else if k < |b| {
        assert HasParent(b, s0 + 1, k);
        HasParentPrefix(b, c, s0 + 1, k);
        HasParentFrom(c, s0, s0 + 1, k);
      } else {
        assert HasParent(c, |b|, k);
        HasParentFrom(c, s0, |b|, k);
      }
    }
  }

  /**
   * The records a call appends form a tree in preorder: each record after
   * the first is a child, with id `2p+1` or `2p+2`, of an earlier record
   * `p` of the same call that was branched.
   */
  lemma {:induction false} ExploreShape<S(!new), I(!new)>(visit: NodeRule<S, I>, cs: Path, parentId: nat, nodeId: nat,
                                              fuel: nat, st: Search<S, I>, out: Search<S, I>)
    requires AppendsOne(visit) && out == Explore(visit, cs, parentId, nodeId, fuel, st)
    ensures Shaped(out.log, |st.log|)
    decreases fuel
  {
    if fuel > 0 {
      var s := visit(cs, parentId, nodeId, st);
      assert AppendsRecord(st, s, parentId, nodeId);
      if s.Split? {
        var mid := Explore(visit, s.le, nodeId, nodeId * 2 + 1, fuel - 1, s.after);
        var last := Explore(visit, s.ge, nodeId, nodeId * 2 + 2, fuel - 1, mid);
        SplitLogs(visit, cs, parentId, nodeId, fuel, st, s.after, s.le, s.ge, mid, last);
        ExploreShape(visit, s.le, nodeId, nodeId * 2 + 1, fuel - 1, s.after, mid);
        ExploreShape(visit, s.ge, nodeId, nodeId * 2 + 2, fuel - 1, mid, last);
        ShapedJoin(s.after.log, mid.log, last.log, |st.log|);
      }
    }
  }

  // ---------------------------------------------------------------------------
  // Ids are heap numbers and never repeat

  /** `k` is `n` or a descendant of `n` in heap numbering, where the children of `p` are `2p+1` and `2p+2`. */
  predicate Descends(k: nat, n: nat)
    decreases k
  {
    k == n || (k > n && Descends((k - 1) / 2, n))
  }

  /** A descendant of a child of `n` is a descendant of `n` other than `n` itself. */
  lemma {:induction false} DescendsChild(k: nat, n: nat, c: nat)
    requires (c == 2 * n + 1 || c == 2 * n + 2) && Descends(k, c)
    ensures Descends(k, n) && k != n
    decreases k
  {
    if k == c {
      assert Descends(n, n);
    } else {
      DescendsChild((k - 1) / 2, n, c);
    }
  }

  /** Two ancestors of the same id lie on one line: the larger descends from the smaller. */
  lemma {:induction false} DescendsChain(k: nat, a: nat, b: nat)
    requires Descends(k, a) && Descends(k, b) && a <= b
    ensures Descends(b, a)
    decreases k
  {
    if k != b {
      DescendsChain((k - 1) / 2, a, b);
    }
  }

  /** No id descends from both children of one node. */
  lemma SiblingsDisjoint(k: nat, n: nat)
    ensures !(Descends(k, 2 * n + 1) && Descends(k, 2 * n + 2))
  {
    if Descends(k, 2 * n + 1) && Descends(k, 2 * n + 2) {
      DescendsChain(k, 2 * n + 1, 2 * n + 2);
      assert false;
    }
  }

  /** The ids of the log's records, in log order. */
  function IdSeq<S>(log: seq<NodeRecord<S>>): seq<nat> {
    seq(|log|, k requires 0 <= k < |log| => log[k].id)
  }

  /** Every record from index `from` on has an id descending from `n`. */
  ghost predicate IdsBelow<S>(log: seq<NodeRecord<S>>, from: nat, n: nat) {
    forall k :: from <= k < |log| ==> Descends(IdSeq(log)[k], n)
  }

  /** No two records from index `from` on share an id. */
  ghost predicate IdsDistinct<S>(log: seq<NodeRecord<S>>, from: nat) {
    forall j, k :: from <= j < k < |log| ==> IdSeq(log)[j] != IdSeq(log)[k]
  }

  /** Distinct ids, record by record. */
  lemma IdsDistinctRecords<S>(log: seq<NodeRecord<S>>, from: nat)
    requires IdsDistinct(log, from)
    ensures forall j, k :: from <= j < k < |log| ==> log[j].id != log[k].id
  {
    forall j, k | from <= j < k < |log|
      ensures log[j].id != log[k].id
    {
      assert IdSeq(log)[j] != IdSeq(log)[k];
    }
  }

  /** A single record holds an id below its own and no repeat. */
  lemma IdsSingle<S>(log: seq<NodeRecord<S>>, from: nat)
    requires |log| == from + 1
    ensures IdsBelow(log, from, log[from].id) && IdsDistinct(log, from)
  {
    assert Descends(IdSeq(log)[from], log[from].id);
  }

  /**
   * A record with id `n` at `s0`, followed by a run of distinct ids below
   * `2n+1` and a run of distinct ids below `2n+2`, holds distinct ids below
   * `n` from `s0` on.
   */
  lemma DistinctJoin<S>(a: seq<NodeRecord<S>>, b: seq<NodeRecord<S>>, c: seq<NodeRecord<S>>, s0: nat, n: nat)
    requires |a| == s0 + 1 && a[s0].id == n
    requires |a| <= |b| <= |c| && b[..|a|] == a && c[..|b|] == b
    requires IdsBelow(b, |a|, n * 2 + 1) && IdsDistinct(b, |a|)
    requires IdsBelow(c, |b|, n * 2 + 2) && IdsDistinct(c, |b|)
    ensures IdsBelow(c, s0, n) && IdsDistinct(c, s0)
  {
    var ib, ic := IdSeq(b), IdSeq(c);
    forall k | 0 <= k < |b|
      ensures ib[k] == ic[k]
    {
      assert c[..|b|][k] == c[k];
    }
    assert ic[s0] == n by {
      assert b[..|a|][s0] == b[s0];
    }
    forall k | s0 <= k < |c|
      ensures Descends(ic[k], n) && (k > s0 ==> ic[k] != n)
    {
      if k == s0 {
        assert Descends(n, n);
      } else if k < |b| {
        DescendsChild(ic[k], n, n * 2 + 1);
      } else {
        DescendsChild(ic[k], n, n * 2 + 2);
      }
    }
    forall j, k | s0 < j < k < |c|
      ensures ic[j] != ic[k]
    {
      if k >= |b| && j < |b| {
        SiblingsDisjoint(ic[k], n);
      }
    }
  }

  /**
   * The records a call appends, ending in `out`, carry distinct ids, all
   * heap-numbered descendants of the call's own id: no node is visited twice.
   */
  lemma {:induction false} ExploreIds<S(!new), I(!new)>(visit: NodeRule<S, I>, cs: Path, parentId: nat, nodeId: nat,
                                            fuel: nat, st: Search<S, I>, out: Search<S, I>)
    requires AppendsOne(visit) && out == Explore(visit, cs, parentId, nodeId, fuel, st)
    ensures IdsBelow(out.log, |st.log|, nodeId) && IdsDistinct(out.log, |st.log|)
    decreases fuel
  {
    if fuel > 0 {
      var s := visit(cs, parentId, nodeId, st);
      assert AppendsRecord(st, s, parentId, nodeId);
      if s.Split? {
        var mid := Explore(visit, s.le, nodeId, nodeId * 2 + 1, fuel - 1, s.after);
        var last := Explore(visit, s.ge, nodeId, nodeId * 2 + 2, fuel - 1, mid);
        SplitLogs(visit, cs, parentId, nodeId, fuel, st, s.after, s.le, s.ge, mid, last);
        ExploreIds(visit, s.le, nodeId, nodeId * 2 + 1, fuel - 1, s.after, mid);
        ExploreIds(visit, s.ge, nodeId, nodeId * 2 + 2, fuel - 1, mid, last);
        DistinctJoin(s.after.log, mid.log, last.log, |st.log|, nodeId);
      } else {
        IdsSingle(s.after.log, |st.log|);
      }
    }
  }

  // ---------------------------------------------------------------------------
  // Integral records are new incumbents

  /** Record `k`, if marked integral, is marked as a new incumbent. */
  ghost predicate MarkedAt<S>(log: seq<NodeRecord<S>>, k: nat)
    requires k < |log|
  {
    log[k].isInteger ==> log[k].newIncumbent
  }

  /** Every record from index `from` on that is marked integral is marked as a new incumbent. */
  ghost predicate IntegralMarked<S>(log: seq<NodeRecord<S>>, from: nat) {
    forall k: nat :: from <= k < |log| ==> MarkedAt(log, k)
  }

  /** `s` appends one record to `st`, and marks it a new incumbent if it marks it integral. */
  ghost predicate AppendsMarked<S, I>(st: Search<S, I>, s: Step<S, I>, parentId: nat, nodeId: nat) {
    AppendsRecord(st, s, parentId, nodeId) && MarkedAt(s.after.log, |st.log|)
  }

  /** Every call of `visit` appends its own record, and marks it a new incumbent if it marks it integral. */
  ghost predicate MarksIntegral<S(!new), I(!new)>(visit: NodeRule<S, I>) {
    forall cs: Path, parentId: nat, nodeId: nat, st: Search<S, I> ::
      AppendsMarked(st, visit(cs, parentId, nodeId, st), parentId, nodeId)
  }

  lemma MarksIntegralAppends<S(!new), I(!new)>(visit: NodeRule<S, I>)
    requires MarksIntegral(visit)
    ensures AppendsOne(visit)
  {
    forall cs: Path, parentId: nat, nodeId: nat, st: Search<S, I>
      ensures AppendsRecord(st, visit(cs, parentId, nodeId, st), parentId, nodeId)
    {
      assert AppendsMarked(st, visit(cs, parentId, nodeId, st), parentId, nodeId);
    }
  }

  /** A marked record at `s0` and the records of two subtrees after it, each marked, are marked from `s0`. */
  lemma IntegralMarkedJoin<S>(a: seq<NodeRecord<S>>, b: seq<NodeRecord<S>>, c: seq<NodeRecord<S>>, s0: nat)
    requires |a| == s0 + 1 && |a| <= |b| <= |c| && b[..|a|] == a && c[..|b|] == b
    requires MarkedAt(a, s0) && IntegralMarked(b, |a|) && IntegralMarked(c, |b|)
    ensures IntegralMarked(c, s0)
  {
    forall k: nat | s0 <= k < |c|
      ensures MarkedAt(c, k)
    {
      if k == s0 {
        assert c[k] == b[k] == a[k];
      } else if k < |b| {
        assert c[k] == b[k];
        assert MarkedAt(b, k);
      }
    }
  }

  /** The `Split` case of `ExploreIntegralMarked`, given what it proves of both subtrees. */
  lemma IntegralMarkedSplit<S(!new), I(!new)>(visit: NodeRule<S, I>, cs: Path, parentId: nat, nodeId: nat, fuel: nat,
                                              st: Search<S, I>, after: Search<S, I>, le: Path, ge: Path, mid: Search<S, I>)
    requires MarksIntegral(visit)
    requires fuel > 0 && visit(cs, parentId, nodeId, st) == Split(after, le, ge)
    requires mid == Explore(visit, le, nodeId, nodeId * 2 + 1, fuel - 1, after)
    requires IntegralMarked(mid.log, |after.log|)
    requires IntegralMarked(Explore(visit, ge, nodeId, nodeId * 2 + 2, fuel - 1, mid).log, |mid.log|)
    ensures IntegralMarked(Explore(visit, cs, parentId, nodeId, fuel, st).log, |st.log|)
  {
    var out := Explore(visit, ge, nodeId, nodeId * 2 + 2, fuel - 1, mid);
    assert |after.log| == |st.log| + 1 && MarkedAt(after.log, |st.log|) by {
      assert AppendsMarked(st, visit(cs, parentId, nodeId, st), parentId, nodeId);
    }
    assert |after.log| <= |mid.log| <= |out.log| && mid.log[..|after.log|] == after.log
        && out.log[..|mid.log|] == mid.log by {
      MarksIntegralAppends(visit);
      ExplorePrefix(visit, le, nodeId, nodeId * 2 + 1, fuel - 1, after, mid);
      ExplorePrefix(visit, ge, nodeId, nodeId * 2 + 2, fuel - 1, mid, out);
    }
    IntegralMarkedJoin(after.log, mid.log, out.log, |st.log|);
    ExploreSplit(visit, cs, parentId, nodeId, fuel, st, after, le, ge, mid, out);
  }

  /** Every record a call appends that is marked integral is marked as a new incumbent. */
  lemma {:induction false} ExploreIntegralMarked<S(!new), I(!new)>(visit: NodeRule<S, I>, cs: Path, parentId: nat,
                                                       nodeId: nat, fuel: nat, st: Search<S, I>)
    requires MarksIntegral(visit)
    ensures IntegralMarked(Explore(visit, cs, parentId, nodeId, fuel, st).log, |st.log|)
    decreases fuel
  {
    if fuel > 0 {
      var s := visit(cs, parentId, nodeId, st);
      assert AppendsMarked(st, s, parentId, nodeId);
      if s.Split? {
        var mid := Explore(visit, s.le, nodeId, nodeId * 2 + 1, fuel - 1, s.after);
        ExploreIntegralMarked(visit, s.le, nodeId, nodeId * 2 + 1, fuel - 1, s.after);
        ExploreIntegralMarked(visit, s.ge, nodeId, nodeId * 2 + 2, fuel - 1, mid);
        IntegralMarkedSplit(visit, cs, parentId, nodeId, fuel, st, s.after, s.le, s.ge, mid);
      }
    }
  }

  // ---------------------------------------------------------------------------
  // The incumbent

  /**
   * `rec` installed the incumbent of `st`: an integral node marked as the
   * new incumbent, whose bound is the stored value and whose LP solution,
   * rounded by `round`, is the stored solution.
   */
  ghost predicate InstalledBy<S, I>(round: S -> I, st: Search<S, I>, rec: NodeRecord<S>) {
    && rec.newIncumbent && rec.isInteger && rec.action == PrunedInteger
    && rec.lpValue == st.best && rec.lpSolution.Some?
    && st.incumbent == Some(round(rec.lpSolution.value))
  }

  /**
   * From `st` to `out` the log only grows, and the incumbent either stays
   * as it was, or its value is `better` than the one it started from and it
   * was installed by one of the records appended in between.
   */
  ghost predicate KeepsOrInstalls<S, I>(better: (ExtReal, ExtReal) -> bool, round: S -> I,
                                        st: Search<S, I>, out: Search<S, I>) {
    && |st.log| <= |out.log| && out.log[..|st.log|] == st.log
    && (|| (out.best == st.best && out.incumbent == st.incumbent)
        || (better(st.best, out.best) &&
            exists k: nat :: |st.log| <= k < |out.log| && InstalledBy(round, out, out.log[k])))
  }

  ghost predicate Transitive(better: (ExtReal, ExtReal) -> bool) {
    forall a: ExtReal, b: ExtReal, c: ExtReal :: better(a, b) && better(b, c) ==> better(a, c)
  }

  /** Keeping or installing, twice in a row, keeps or installs. */
  lemma KeepsOrInstallsTrans<S, I>(better: (ExtReal, ExtReal) -> bool, round: S -> I,
                                   a: Search<S, I>, b: Search<S, I>, c: Search<S, I>)
    requires Transitive(better)
    requires KeepsOrInstalls(better, round, a, b) && KeepsOrInstalls(better, round, b, c)
    ensures KeepsOrInstalls(better, round, a, c)
  {
    PrefixTrans(a.log, b.log, c.log);
    if c.best == b.best && c.incumbent == b.incumbent {
      if !(b.best == a.best && b.incumbent == a.incumbent) {
        var k: nat :| |a.log| <= k < |b.log| && InstalledBy(round, b, b.log[k]);
        assert c.log[k] == b.log[k];
        assert InstalledBy(round, c, c.log[k]);
      }
    } else if b.best != a.best || b.incumbent != a.incumbent {
      assert better(a.best, c.best);
      var k: nat :| |b.log| <= k < |c.log| && InstalledBy(round, c, c.log[k]);
    }
  }

  /** Every step of `visit` keeps the incumbent or installs a better one with its own record. */
  ghost predicate StepsKeepOrInstall<S(!new), I(!new)>(visit: NodeRule<S, I>, better: (ExtReal, ExtReal) -> bool,
                                                       round: S -> I) {
    forall cs: Path, parentId: nat, nodeId: nat, st: Search<S, I> ::
      KeepsOrInstalls(better, round, st, visit(cs, parentId, nodeId, st).after)
  }

  /** A whole call keeps or installs when each of its steps does. */
  lemma {:induction false} ExploreKeepsOrInstalls<S(!new), I(!new)>(visit: NodeRule<S, I>, better: (ExtReal, ExtReal) -> bool,
                                                                     round: S -> I, cs: Path, parentId: nat, nodeId: nat,
                                                                     fuel: nat, st: Search<S, I>)
    requires Transitive(better) && StepsKeepOrInstall(visit, better, round)
    ensures KeepsOrInstalls(better, round, st, Explore(visit, cs, parentId, nodeId, fuel, st))
    decreases fuel
  {
    if fuel > 0 {
      var s := visit(cs, parentId, nodeId, st);
      assert KeepsOrInstalls(better, round, st, s.after);
      if s.Split? {
        var mid := Explore(visit, s.le, nodeId, nodeId * 2 + 1, fuel - 1, s.after);
        var out := Explore(visit, s.ge, nodeId, nodeId * 2 + 2, fuel - 1, mid);
        ExploreKeepsOrInstalls(visit, better, round, s.le, nodeId, nodeId * 2 + 1, fuel - 1, s.after);
        ExploreKeepsOrInstalls(visit, better, round, s.ge, nodeId, nodeId * 2 + 2, fuel - 1, mid);
        KeepsOrInstallsTrans(better, round, st, s.after, mid);
        KeepsOrInstallsTrans(better, round, st, mid, out);
        ExploreSplit(visit, cs, parentId, nodeId, fuel, st, s.after, s.le, s.ge, mid, out);
      }
    }
  }
}
