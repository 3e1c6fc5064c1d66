/**
 * The generic tree builder of gtree/builder.go.
 *
 * Records are the input positions 0..n-1; each record's mutable children
 * field is `children[i]` (an array of child-position lists). A record's
 * child list is reset to empty only when the linking loop reaches that
 * record itself, so children linked to a parent that comes later in the
 * input are discarded when the parent is reached.
 */
module GTree {
  import opened Base
  import opened TreeNodes
  import opened Comparators
  import opened Sorting

  /** What happens to a non-root record whose parent key is not indexed. */
  datatype OrphanStrategy = IgnoreOrphans | CollectOrphans | ErrorOnOrphans

  /** The settings of a `TreeBuilder` that affect what `Build` produces. */
  datatype Config = Config(comparator: Option<Comparator>, orphanStrategy: OrphanStrategy)

  /** The functional options of `NewTreeBuilder` that change a `Config`. */
  datatype BuilderOption = WithComparator(comp: Comparator) | WithOrphanStrategy(strategy: OrphanStrategy)

  /** `NewTreeBuilder(opts...)`: defaults (no comparator, ignore orphans), then each option in order. */
  method NewTreeBuilder(opts: seq<BuilderOption>) returns (cfg: Config)
    ensures cfg.comparator.None? <==> forall i :: 0 <= i < |opts| ==> !opts[i].WithComparator?
    ensures cfg.comparator.Some? ==>
      exists i :: 0 <= i < |opts| && opts[i] == WithComparator(cfg.comparator.value) &&
        forall j :: i < j < |opts| ==> !opts[j].WithComparator?
    ensures (forall i :: 0 <= i < |opts| ==> !opts[i].WithOrphanStrategy?) ==> cfg.orphanStrategy == IgnoreOrphans
    ensures (exists i :: 0 <= i < |opts| && opts[i].WithOrphanStrategy?) ==>
      exists i :: 0 <= i < |opts| && opts[i] == WithOrphanStrategy(cfg.orphanStrategy) &&
        forall j :: i < j < |opts| ==> !opts[j].WithOrphanStrategy?
  {
    cfg := Config(None, IgnoreOrphans);
    ghost var ci, si := -1, -1;  // the last comparator and strategy options seen, -1 for none
    for k := 0 to |opts|
      invariant -1 <= ci < k && -1 <= si < k
      invariant ci == -1 <==> cfg.comparator.None?
      invariant ci >= 0 ==> opts[ci] == WithComparator(cfg.comparator.value)
      invariant forall j :: ci < j < k ==> !opts[j].WithComparator?
      invariant si == -1 ==> cfg.orphanStrategy == IgnoreOrphans
      invariant si >= 0 ==> opts[si] == WithOrphanStrategy(cfg.orphanStrategy)
      invariant forall j :: si < j < k ==> !opts[j].WithOrphanStrategy?
    {
      match opts[k]
      case WithComparator(c) =>
        cfg := cfg.(comparator := Some(c));
        ci := k;
      case WithOrphanStrategy(st) =>
        cfg := cfg.(orphanStrategy := st);
        si := k;
    }
    if ci >= 0 {
      assert opts[ci].WithComparator?;
    }
    if si >= 0 {
      assert opts[si].WithOrphanStrategy?;
    }
  }

  /** The `nodeMap` loop: one pass over the input, later records overwriting earlier ones. */
  method IndexNodes<K(==)>(nodes: seq<Record<K>>) returns (nodeMap: map<K, nat>)
    ensures nodeMap == KeyIndex(nodes)
  {
    nodeMap := map[];
    for i := 0 to |nodes|
      invariant nodeMap == KeyIndex(nodes[..i])
    {
      KeyIndexSnoc(nodes, i);
      nodeMap := nodeMap[nodes[i].key := i];
    }
    assert nodes[..|nodes|] == nodes;
  }

  /** Whether the linking loop resets record p's child list when it reaches p. */
  predicate IsReset<K(==)>(nodes: seq<Record<K>>, strategy: OrphanStrategy, p: nat)
    requires p < |nodes|
  {
    !IsOrphan(nodes, p) || strategy == CollectOrphans
  }

  /**
   * Record p's child list after the linking loop has visited records
   * 0..k-1, starting from `init`: once p has been reset, only the records
   * from p onwards that link to p; otherwise `init` followed by every
   * record so far that links to p.
   */
  function LinkedChildren<K(==)>(nodes: seq<Record<K>>, strategy: OrphanStrategy, init: seq<nat>, p: nat, k: nat): seq<nat>
    requires p < |nodes| && k <= |nodes|
  {
    if p < k && IsReset(nodes, strategy, p) then Select(nodes, ChildrenOf(p), p, k)
    else init + Select(nodes, ChildrenOf(p), 0, k)
  }

  /** Every record's child list once linking is complete. */
  function LinkedState<K(==)>(nodes: seq<Record<K>>, strategy: OrphanStrategy, init: seq<seq<nat>>): (ch: seq<seq<nat>>)
    requires |init| == |nodes|
    ensures |ch| == |nodes|
    ensures forall p :: 0 <= p < |nodes| ==> ch[p] == LinkedChildren(nodes, strategy, init[p], p, |nodes|)
  {
    seq(|nodes|, p requires 0 <= p < |nodes| => LinkedChildren(nodes, strategy, init[p], p, |nodes|))
  }

  /** The root list before sorting: roots, and collected orphans, in input order. */
  function RootList<K(==)>(nodes: seq<Record<K>>, strategy: OrphanStrategy): seq<nat>
  {
    Select(nodes, Roots(strategy == CollectOrphans), 0, |nodes|)
  }

  /** The error-handler calls for records 0..k-1: one per orphan, unless orphans are collected. */
  function Reported<K(==)>(nodes: seq<Record<K>>, strategy: OrphanStrategy, k: nat): seq<(K, K)>
    requires k <= |nodes|
  {
    if strategy == CollectOrphans then []
    else
      var orphans := Select(nodes, Orphans, 0, k);
      assert forall j :: 0 <= j < |orphans| ==> orphans[j] in orphans;
      Reports(nodes, orphans)
  }

  /** `handleOrphanNode`: collect the orphan as a childless root, or report it to the handler. */
  method HandleOrphanNode<K(==)>(strategy: OrphanStrategy, nodes: seq<Record<K>>, children: array<seq<nat>>,
                                 i: nat, parentKey: K, roots: seq<nat>, log: seq<(K, K)>)
    returns (roots': seq<nat>, log': seq<(K, K)>)
    requires i < |nodes| == children.Length
    modifies children
    ensures strategy == CollectOrphans ==>
      roots' == roots + [i] && log' == log && children[..] == old(children[..])[i := []]
    ensures strategy != CollectOrphans ==>
      roots' == roots && log' == log + [(nodes[i].key, parentKey)] && children[..] == old(children[..])
  {
    roots', log' := roots, log;
    match strategy
    case CollectOrphans =>
      children[i] := [];
      roots' := roots + [i];
    case ErrorOnOrphans =>
      log' := log + [(nodes[i].key, parentKey)];
    case IgnoreOrphans =>
      log' := log + [(nodes[i].key, parentKey)];
  }

  /** Every record's child list after the linking loop has visited records 0..k-1. */
  ghost function PartialState<K>(nodes: seq<Record<K>>, strategy: OrphanStrategy, init: seq<seq<nat>>, k: nat): (ch: seq<seq<nat>>)
    requires |init| == |nodes| && k <= |nodes|
    ensures |ch| == |nodes|
    ensures forall p :: 0 <= p < |nodes| ==> ch[p] == LinkedChildren(nodes, strategy, init[p], p, k)
  {
    seq(|nodes|, p requires 0 <= p < |nodes| => LinkedChildren(nodes, strategy, init[p], p, k))
  }

  /** How visiting record i changes record p's child list. */
  lemma LinkedChildrenStep<K>(nodes: seq<Record<K>>, strategy: OrphanStrategy, init: seq<nat>, p: nat, i: nat)
    requires p < |nodes| && i < |nodes|
    ensures p != i ==>
      LinkedChildren(nodes, strategy, init, p, i + 1) ==
      LinkedChildren(nodes, strategy, init, p, i) + (if IsLinked(nodes, i) && ParentOf(nodes, i) == p then [i] else [])
    ensures p == i && IsReset(nodes, strategy, i) ==>
      LinkedChildren(nodes, strategy, init, i, i + 1) == (if IsLinked(nodes, i) && ParentOf(nodes, i) == i then [i] else [])
    ensures p == i && !IsReset(nodes, strategy, i) ==>
      LinkedChildren(nodes, strategy, init, i, i + 1) == LinkedChildren(nodes, strategy, init, i, i)
  {
    if p != i {
      OtherListStep(nodes, strategy, init, p, i);
    } else if IsReset(nodes, strategy, i) {
      assert Select(nodes, ChildrenOf(i), i, i) == [];
    } else {
      assert !IsLinked(nodes, i);
      assert Select(nodes, ChildrenOf(i), 0, i + 1) == Select(nodes, ChildrenOf(i), 0, i);
    }
  }

  lemma OtherListStep<K>(nodes: seq<Record<K>>, strategy: OrphanStrategy, init: seq<nat>, p: nat, i: nat)
    requires p < |nodes| && i < |nodes| && p != i
    ensures LinkedChildren(nodes, strategy, init, p, i + 1) ==
      LinkedChildren(nodes, strategy, init, p, i) + (if IsLinked(nodes, i) && ParentOf(nodes, i) == p then [i] else [])
  {
    var sel := if IsLinked(nodes, i) && ParentOf(nodes, i) == p then [i] else [];
    if p < i && IsReset(nodes, strategy, p) {
      assert Select(nodes, ChildrenOf(p), p, i + 1) == Select(nodes, ChildrenOf(p), p, i) + sel;
    } else {
      var a := Select(nodes, ChildrenOf(p), 0, i);
      assert Select(nodes, ChildrenOf(p), 0, i + 1) == a + sel;
      assert init + (a + sel) == (init + a) + sel;
    }
  }

  /** Visiting record i takes the child lists from their state after 0..i-1 to their state after 0..i. */
  lemma LinkStep<K>(nodes: seq<Record<K>>, strategy: OrphanStrategy, init: seq<seq<nat>>, i: nat,
                    before: seq<seq<nat>>, after: seq<seq<nat>>)
    requires |init| == |nodes| == |before| == |after| && i < |nodes|
    requires forall p :: 0 <= p < |nodes| ==> before[p] == LinkedChildren(nodes, strategy, init[p], p, i)
    requires IsReset(nodes, strategy, i) ==> after[i] == (if IsLinked(nodes, i) && ParentOf(nodes, i) == i then [i] else [])
    requires !IsReset(nodes, strategy, i) ==> after[i] == before[i]
    requires forall p :: 0 <= p < |nodes| && p != i ==>
      after[p] == before[p] + (if IsLinked(nodes, i) && ParentOf(nodes, i) == p then [i] else [])
    ensures forall p :: 0 <= p < |nodes| ==> after[p] == LinkedChildren(nodes, strategy, init[p], p, i + 1)
  {
    forall p | 0 <= p < |nodes|
      ensures after[p] == LinkedChildren(nodes, strategy, init[p], p, i + 1)
    {
      LinkedChildrenStep(nodes, strategy, init[p], p, i);
    }
  }

  /** Visiting a root, or an orphan that is collected, clears its own child list. */
  lemma LinkResetStep<K>(nodes: seq<Record<K>>, strategy: OrphanStrategy, init: seq<seq<nat>>, i: nat, before: seq<seq<nat>>)
    requires |init| == |nodes| && i < |nodes|
    requires before == PartialState(nodes, strategy, init, i)
    requires nodes[i].isRoot || (IsOrphan(nodes, i) && strategy == CollectOrphans)
    ensures before[i := []] == PartialState(nodes, strategy, init, i + 1)
  {
    LinkStep(nodes, strategy, init, i, before, before[i := []]);
  }

  /** Visiting a linked record clears its child list and appends it to its parent's. */
  lemma LinkChildStep<K>(nodes: seq<Record<K>>, strategy: OrphanStrategy, init: seq<seq<nat>>, i: nat, before: seq<seq<nat>>)
    requires |init| == |nodes| && i < |nodes|
    requires before == PartialState(nodes, strategy, init, i)
    requires IsLinked(nodes, i)
    ensures var cleared := before[i := []];
      cleared[ParentOf(nodes, i) := cleared[ParentOf(nodes, i)] + [i]] == PartialState(nodes, strategy, init, i + 1)
  {
    var cleared := before[i := []];
    LinkStep(nodes, strategy, init, i, before, cleared[ParentOf(nodes, i) := cleared[ParentOf(nodes, i)] + [i]]);
  }

  /** Visiting an orphan that is not collected leaves every child list as it is. */
  lemma LinkSkipStep<K>(nodes: seq<Record<K>>, strategy: OrphanStrategy, init: seq<seq<nat>>, i: nat, before: seq<seq<nat>>)
    requires |init| == |nodes| && i < |nodes|
    requires before == PartialState(nodes, strategy, init, i)
    requires IsOrphan(nodes, i) && strategy != CollectOrphans
    ensures before == PartialState(nodes, strategy, init, i + 1)
  {
    LinkStep(nodes, strategy, init, i, before, before);
  }

  /** Visiting record i adds one handler call exactly when it is an orphan that is not collected. */
  lemma ReportedStep<K>(nodes: seq<Record<K>>, strategy: OrphanStrategy, i: nat)
    requires i < |nodes|
    ensures Reported(nodes, strategy, i + 1) ==
      Reported(nodes, strategy, i) +
      (if IsOrphan(nodes, i) && strategy != CollectOrphans then [(nodes[i].key, nodes[i].parentKey)] else [])
  {
    if strategy != CollectOrphans && IsOrphan(nodes, i) {
      var orphans := Select(nodes, Orphans, 0, i);
      assert Select(nodes, Orphans, 0, i + 1) == orphans + [i];
      assert forall j :: 0 <= j < |orphans| ==> orphans[j] in orphans;
      ReportsSnoc(nodes, orphans, i);
    }
  }

  /** One iteration of the linking loop: record i is attached to its parent, made a root, or handled as an orphan. */
  method LinkRecord<K(==)>(strategy: OrphanStrategy, nodes: seq<Record<K>>, nodeMap: map<K, nat>, children: array<seq<nat>>,
                           i: nat, roots: seq<nat>, reports: seq<(K, K)>, ghost init: seq<seq<nat>>)
    returns (roots': seq<nat>, reports': seq<(K, K)>)
    requires nodeMap == KeyIndex(nodes) && i < |nodes| == |init| == children.Length
    requires roots == Select(nodes, Roots(strategy == CollectOrphans), 0, i)
    requires reports == Reported(nodes, strategy, i)
    requires children[..] == PartialState(nodes, strategy, init, i)
    modifies children
    ensures roots' == Select(nodes, Roots(strategy == CollectOrphans), 0, i + 1)
    ensures reports' == Reported(nodes, strategy, i + 1)
    ensures children[..] == PartialState(nodes, strategy, init, i + 1)
  {
    ghost var before := children[..];
    ReportedStep(nodes, strategy, i);
    roots', reports' := roots, reports;
    var node := nodes[i];
    if node.isRoot {
      LinkResetStep(nodes, strategy, init, i, before);
      children[i] := [];
      roots' := roots + [i];
    } else {
      var parentKey := node.parentKey;
      if parentKey in nodeMap {
        var parent := nodeMap[parentKey];
        assert IsLinked(nodes, i) && ParentOf(nodes, i) == parent;
        LinkChildStep(nodes, strategy, init, i, before);
        children[i] := [];
        children[parent] := children[parent] + [i];
      } else {
        assert IsOrphan(nodes, i);
        if strategy == CollectOrphans {
          LinkResetStep(nodes, strategy, init, i, before);
        } else {
          LinkSkipStep(nodes, strategy, init, i, before);
        }
        roots', reports' := HandleOrphanNode(strategy, nodes, children, i, parentKey, roots, reports);
      }
    }
  }

  /** The linking loop of `Build`: the root list, the handler calls and the new child lists. */
  method Link<K(==)>(strategy: OrphanStrategy, nodes: seq<Record<K>>, children: array<seq<nat>>)
    returns (roots: seq<nat>, reports: seq<(K, K)>)
    requires children.Length == |nodes|
    modifies children
    ensures roots == RootList(nodes, strategy)
    ensures reports == Reported(nodes, strategy, |nodes|)
    ensures children[..] == LinkedState(nodes, strategy, old(children[..]))
  {
    var nodeMap := IndexNodes(nodes);
    roots, reports := [], [];
    ghost var init := children[..];
    assert PartialState(nodes, strategy, init, 0) == init by {
      forall p | 0 <= p < |nodes| ensures init[p] + [] == init[p] { }
    }
    for i := 0 to |nodes|
      invariant roots == Select(nodes, Roots(strategy == CollectOrphans), 0, i)
      invariant reports == Reported(nodes, strategy, i)
      invariant children[..] == PartialState(nodes, strategy, init, i)
    {
      roots, reports := LinkRecord(strategy, nodes, nodeMap, children, i, roots, reports, init);
    }
    assert PartialState(nodes, strategy, init, |nodes|) == LinkedState(nodes, strategy, init);
  }

  /**
   * `sortTreeRecursive`: sorts `list` and, below each of its elements,
   * every child list. The recursive call's own sorted copy of a child
   * list is discarded, as in the source; only the child lists it sorts
   * further down persist.
   */
  method SortTree<K>(c: Comparator, nodes: seq<Record<K>>, children: array<seq<nat>>, list: seq<nat>, ghost rank: seq<nat>)
    returns (sorted: seq<nat>)
    requires children.Length == |nodes| && InRange(list, |rank|)
    requires forall j :: 0 <= j < |list| ==> WellRanked(children[..], rank, list[j])
    modifies children
    ensures SortedPermOf(c, nodes, sorted, list)
    ensures SortedBelow(c, nodes, old(children[..]), children[..], rank, list)
    decreases RankBound(rank, list), 1
  {
    ghost var ch0 := children[..];
    if |list| == 0 {
      return list;
    }
    sorted := SortSlice(c, nodes, list);
    for i := 0 to |sorted|
      invariant SortedBelow(c, nodes, ch0, children[..], rank, sorted[..i])
    {
      assert sorted[i] in multiset(list);
      TakeSnoc(sorted, i);
      SortNodeChildren(c, nodes, children, sorted[i], rank, ch0, sorted[..i]);
    }
    assert sorted[..|sorted|] == sorted;
    SortedBelowPermutation(c, nodes, ch0, children[..], rank, sorted, list);
  }

  /** One iteration of `sortTreeRecursive`'s loop: sort `node`'s child list, then recurse into it. */
  method SortNodeChildren<K>(c: Comparator, nodes: seq<Record<K>>, children: array<seq<nat>>, node: nat,
                             ghost rank: seq<nat>, ghost ch0: seq<seq<nat>>, ghost done: seq<nat>)
    requires children.Length == |nodes|
    requires SortedBelow(c, nodes, ch0, children[..], rank, done)
    requires WellRanked(ch0, rank, node)
    modifies children
    ensures SortedBelow(c, nodes, ch0, children[..], rank, done + [node])
    decreases rank[node] + 1, 0
  {
    ghost var ch1 := children[..];
    SortedBelowSameChildren(c, nodes, ch0, ch1, rank, done);
    var kids := children[node];
    if |kids| > 0 {
      children[node] := SortSlice(c, nodes, kids);
      ghost var ch2 := children[..];
      ChildrenWellRanked(ch0, ch2, rank, node);
      var typed := children[node];
      var _ := SortTree(c, nodes, children, typed, rank);
      SortStep(c, nodes, rank, ch0, ch1, ch2, children[..], done, node);
    } else {
      SortStep(c, nodes, rank, ch0, ch1, ch1, ch1, done, node);
    }
  }

  /** Ranks that decrease along the input order: linked children always come later than their (reset) parent. */
  function ForwardRank(n: nat): (rank: seq<nat>)
    ensures |rank| == n
    ensures forall i, j :: 0 <= i < j < n ==> rank[j] < rank[i]
  {
    seq(n, i requires 0 <= i < n => n - i)
  }

  /**
   * After linking, the subtree below any reset record that is not its own
   * parent is finite: every child list it reaches holds later records only.
   */
  lemma {:induction false} LinkedStateWellRanked<K>(nodes: seq<Record<K>>, strategy: OrphanStrategy, init: seq<seq<nat>>, p: nat)
    requires |init| == |nodes| && p < |nodes|
    requires IsReset(nodes, strategy, p)
    requires !(IsLinked(nodes, p) && ParentOf(nodes, p) == p)
    ensures WellRanked(LinkedState(nodes, strategy, init), ForwardRank(|nodes|), p)
    decreases |nodes| - p
  {
    var ch := LinkedState(nodes, strategy, init);
    var rank := ForwardRank(|nodes|);
    assert ch[p] == Select(nodes, ChildrenOf(p), p, |nodes|);
    forall i | 0 <= i < |ch[p]|
      ensures ch[p][i] < |ch| && ch[p][i] < |rank| && rank[ch[p][i]] < rank[p] && WellRanked(ch, rank, ch[p][i])
    {
      var x := ch[p][i];
      assert x in ch[p];
      LinkedStateWellRanked(nodes, strategy, init, x);
    }
  }

  /** `Build`: link the records, then sort recursively from the roots when a comparator is set. */
  method Build<K(==)>(cfg: Config, nodes: seq<Record<K>>, children: array<seq<nat>>)
    returns (roots: seq<nat>, reports: seq<(K, K)>)
    requires children.Length == |nodes|
    modifies children
    ensures |nodes| == 0 ==> roots == [] && reports == []
    ensures reports == Reported(nodes, cfg.orphanStrategy, |nodes|)
    ensures cfg.comparator.None? ==>
      roots == RootList(nodes, cfg.orphanStrategy) &&
      children[..] == LinkedState(nodes, cfg.orphanStrategy, old(children[..]))
    ensures cfg.comparator.Some? ==>
      SortedPermOf(cfg.comparator.value, nodes, roots, RootList(nodes, cfg.orphanStrategy)) &&
      SortedBelow(cfg.comparator.value, nodes, LinkedState(nodes, cfg.orphanStrategy, old(children[..])),
                  children[..], ForwardRank(|nodes|), RootList(nodes, cfg.orphanStrategy))
    ensures Ranked(children[..], ForwardRank(|nodes|), roots)
  {
    if |nodes| == 0 {
      return [], [];
    }
    ghost var init := children[..];
    roots, reports := Link(cfg.orphanStrategy, nodes, children);
    forall j | 0 <= j < |roots|
      ensures WellRanked(children[..], ForwardRank(|nodes|), roots[j])
    {
      assert roots[j] in roots;
      LinkedStateWellRanked(nodes, cfg.orphanStrategy, init, roots[j]);
    }
    if cfg.comparator.Some? {
      ghost var linked := children[..];
      ghost var unsorted := roots;
      roots := SortTree(cfg.comparator.value, nodes, children, roots, ForwardRank(|nodes|));
      SortedBelowSameChildren(cfg.comparator.value, nodes, linked, children[..], ForwardRank(|nodes|), unsorted);
      forall j | 0 <= j < |roots|
        ensures WellRanked(children[..], ForwardRank(|nodes|), roots[j])
      {
        assert roots[j] in multiset(unsorted);
        WellRankedSameChildren(linked, children[..], ForwardRank(|nodes|), roots[j]);
      }
    }
  }

  /** `BuildWithMap`: the roots of `Build` together with the key index. */
  method BuildWithMap<K(==)>(cfg: Config, nodes: seq<Record<K>>, children: array<seq<nat>>)
    returns (roots: seq<nat>, reports: seq<(K, K)>, nodeMap: map<K, nat>)
    requires children.Length == |nodes|
    modifies children
    ensures nodeMap.Keys == set i | 0 <= i < |nodes| :: nodes[i].key
    ensures forall k :: k in nodeMap ==>
      nodeMap[k] < |nodes| && nodes[nodeMap[k]].key == k && forall j :: nodeMap[k] < j < |nodes| ==> nodes[j].key != k
    ensures reports == Reported(nodes, cfg.orphanStrategy, |nodes|)
    ensures cfg.comparator.None? ==>
      roots == RootList(nodes, cfg.orphanStrategy) &&
      children[..] == LinkedState(nodes, cfg.orphanStrategy, old(children[..]))
    ensures cfg.comparator.Some? ==>
      SortedPermOf(cfg.comparator.value, nodes, roots, RootList(nodes, cfg.orphanStrategy)) &&
      SortedBelow(cfg.comparator.value, nodes, LinkedState(nodes, cfg.orphanStrategy, old(children[..])),
                  children[..], ForwardRank(|nodes|), RootList(nodes, cfg.orphanStrategy))
    ensures Ranked(children[..], ForwardRank(|nodes|), roots)
  {
    if |nodes| == 0 {
      return [], [], map[];
    }
    nodeMap := IndexNodes(nodes);
    roots, reports := Build(cfg, nodes, children);
  }

  // ---------------------------------------------------------------------
  // Where each record ends up. `init` is the child lists the records held
  // before `Build`; a record already in one of them stays there unless
  // that list is reset.
  // ---------------------------------------------------------------------

  /**
   * Record c is added to q's child list exactly when its parent key
   * resolves to q and either c comes no earlier than q in the input or q
   * is never reset (an orphan that is not collected).
   */
  lemma LinkedChildAttached<K>(nodes: seq<Record<K>>, strategy: OrphanStrategy, init: seq<seq<nat>>, c: nat, q: nat)
    requires |init| == |nodes| && c < |nodes| && q < |nodes| && c !in init[q]
    ensures c in LinkedState(nodes, strategy, init)[q] <==>
      IsLinked(nodes, c) && ParentOf(nodes, c) == q && (q <= c || !IsReset(nodes, strategy, q))
  {
  }

  /**
   * The reset hazard: a linked record that precedes its parent in the
   * input is dropped when the parent is visited and reset (as a root, a
   * linked record or a collected orphan), so it is in no child list it was
   * not already in, and it is not a root.
   */
  lemma ChildBeforeParentLost<K>(nodes: seq<Record<K>>, strategy: OrphanStrategy, init: seq<seq<nat>>, c: nat)
    requires |init| == |nodes| && c < |nodes| && IsLinked(nodes, c)
    requires c < ParentOf(nodes, c) && IsReset(nodes, strategy, ParentOf(nodes, c))
    ensures forall q :: 0 <= q < |nodes| && c in LinkedState(nodes, strategy, init)[q] ==> c in init[q]
    ensures c !in RootList(nodes, strategy)
  {
    forall q | 0 <= q < |nodes| && c in LinkedState(nodes, strategy, init)[q]
      ensures c in init[q]
    {
      if c !in init[q] {
        LinkedChildAttached(nodes, strategy, init, c, q);
      }
    }
  }

  /** A concrete instance: a child listed before its root parent ends up in no child list. */
  lemma LostChildExample()
    ensures
      var nodes := [Record(2, 1, false, 0, [], 0), Record(1, 0, true, 0, [], 0)];
      IsLinked(nodes, 0) && ParentOf(nodes, 0) == 1 &&
      RootList(nodes, IgnoreOrphans) == [1] &&
      LinkedState(nodes, IgnoreOrphans, [[], []]) == [[], []]
  {
    var nodes := [Record(2, 1, false, 0, [], 0), Record(1, 0, true, 0, [], 0)];
    assert KeyIndex(nodes[..1]) == map[2 := 0];
    assert KeyIndex(nodes) == map[2 := 0, 1 := 1];
    assert IsLinked(nodes, 0) && ParentOf(nodes, 0) == 1;
    assert !IsLinked(nodes, 1);
    assert Select(nodes, Roots(false), 0, 1) == [];
    assert Select(nodes, ChildrenOf(1), 1, 1) == [];
    assert Select(nodes, ChildrenOf(0), 0, 1) == [];
  }

  /**
   * `handleOrphanNode`: with `CollectOrphans` an orphan becomes a root and
   * the handler is never called; otherwise it is reported with its key and
   * missing parent key and is not a root. Either way it is added to no
   * child list.
   */
  lemma OrphanPolicy<K>(nodes: seq<Record<K>>, strategy: OrphanStrategy, init: seq<seq<nat>>, i: nat)
    requires |init| == |nodes| && i < |nodes| && IsOrphan(nodes, i)
    ensures forall q :: 0 <= q < |nodes| && i in LinkedState(nodes, strategy, init)[q] ==> i in init[q]
    ensures strategy == CollectOrphans ==> i in RootList(nodes, strategy) && Reported(nodes, strategy, |nodes|) == []
    ensures strategy != CollectOrphans ==>
      i !in RootList(nodes, strategy) && (nodes[i].key, nodes[i].parentKey) in Reported(nodes, strategy, |nodes|)
  {
    forall q | 0 <= q < |nodes| && i in LinkedState(nodes, strategy, init)[q]
      ensures i in init[q]
    {
      if i !in init[q] {
        LinkedChildAttached(nodes, strategy, init, i, q);
      }
    }
    if strategy != CollectOrphans {
      OrphanInReported(nodes, strategy, i);
    }
  }

  lemma OrphanInReported<K>(nodes: seq<Record<K>>, strategy: OrphanStrategy, i: nat)
    requires i < |nodes| && IsOrphan(nodes, i) && strategy != CollectOrphans
    ensures (nodes[i].key, nodes[i].parentKey) in Reported(nodes, strategy, |nodes|)
  {
    var orphans := Select(nodes, Orphans, 0, |nodes|);
    assert i in orphans;
    var j :| 0 <= j < |orphans| && orphans[j] == i;
    assert forall t :: 0 <= t < |orphans| ==> orphans[t] in orphans;
    assert Reported(nodes, strategy, |nodes|)[j] == (nodes[i].key, nodes[i].parentKey);
  }

  // ---------------------------------------------------------------------
  // Level queries over a built forest (`GetNodesByLevel`, `GetMaxLevel`).
  // `rank` is a ghost witness that the forest below the list is finite;
  // `ForwardRank` is one for the forest `Build` produces.
  // ---------------------------------------------------------------------

  /** Every element of `s` is a well-ranked node. */
  ghost predicate Ranked(ch: seq<seq<nat>>, rank: seq<nat>, s: seq<nat>)
  {
    InRange(s, |ch|) && InRange(s, |rank|) && forall j :: 0 <= j < |s| ==> WellRanked(ch, rank, s[j])
  }

  /** The next level: the child lists of the nodes in `s`, concatenated in order. */
  ghost function NextLevel(ch: seq<seq<nat>>, s: seq<nat>): seq<nat>
    requires InRange(s, |ch|)
  {
    if s == [] then [] else NextLevel(ch, s[..|s| - 1]) + ch[s[|s| - 1]]
  }

  lemma {:induction false} NextLevelRanked(ch: seq<seq<nat>>, rank: seq<nat>, s: seq<nat>)
    requires Ranked(ch, rank, s)
    ensures Ranked(ch, rank, NextLevel(ch, s))
    ensures forall j :: 0 <= j < |NextLevel(ch, s)| ==> rank[NextLevel(ch, s)[j]] + 1 < RankBound(rank, s)
    ensures s != [] ==> RankBound(rank, NextLevel(ch, s)) < RankBound(rank, s)
  {
    if s != [] {
      var p, x := s[..|s| - 1], s[|s| - 1];
      assert forall j :: 0 <= j < |p| ==> p[j] == s[j];
      NextLevelRanked(ch, rank, p);
      var np := NextLevel(ch, p);
      var n := NextLevel(ch, s);
      assert n == np + ch[x];
      assert WellRanked(ch, rank, x);
      forall j | 0 <= j < |n|
        ensures n[j] < |ch| && n[j] < |rank| && WellRanked(ch, rank, n[j]) && rank[n[j]] + 1 < RankBound(rank, s)
      {
        if j < |np| {
          assert n[j] == np[j];
        } else {
          assert n[j] == ch[x][j - |np|];
        }
      }
    }
  }

  /** The levels below and including `s`: `s`, its next level, and so on until a level is empty. */
  ghost function Levels(ch: seq<seq<nat>>, rank: seq<nat>, s: seq<nat>): seq<seq<nat>>
    requires Ranked(ch, rank, s)
    decreases RankBound(rank, s)
  {
    if s == [] then []
    else
      NextLevelRanked(ch, rank, s);
      [s] + Levels(ch, rank, NextLevel(ch, s))
  }

  /** Unfolding `Levels` once: a non-empty list is followed by the levels of its next level. */
  lemma LevelsCons(ch: seq<seq<nat>>, rank: seq<nat>, s: seq<nat>)
    requires Ranked(ch, rank, s) && s != []
    ensures Ranked(ch, rank, NextLevel(ch, s))
    ensures RankBound(rank, NextLevel(ch, s)) < RankBound(rank, s)
    ensures Levels(ch, rank, s) == [s] + Levels(ch, rank, NextLevel(ch, s))
  {
    NextLevelRanked(ch, rank, s);
  }

  /** Level k is a non-empty ranked list. */
  lemma {:induction false} LevelAt(ch: seq<seq<nat>>, rank: seq<nat>, s: seq<nat>, k: nat)
    requires Ranked(ch, rank, s) && k < |Levels(ch, rank, s)|
    ensures Levels(ch, rank, s)[k] != [] && Ranked(ch, rank, Levels(ch, rank, s)[k])
    decreases k
  {
    LevelsCons(ch, rank, s);
    if k > 0 {
      LevelAt(ch, rank, NextLevel(ch, s), k - 1);
    }
  }

  /** Level k + 1 is the next level of level k. */
  lemma {:induction false} LevelStep(ch: seq<seq<nat>>, rank: seq<nat>, s: seq<nat>, k: nat)
    requires Ranked(ch, rank, s) && k + 1 < |Levels(ch, rank, s)|
    ensures InRange(Levels(ch, rank, s)[k], |ch|)
    ensures Levels(ch, rank, s)[k + 1] == NextLevel(ch, Levels(ch, rank, s)[k])
    decreases k
  {
    LevelsCons(ch, rank, s);
    if k > 0 {
      LevelStep(ch, rank, NextLevel(ch, s), k - 1);
    }
  }

  /** The last level has no children. */
  lemma {:induction false} LevelsLast(ch: seq<seq<nat>>, rank: seq<nat>, s: seq<nat>)
    requires Ranked(ch, rank, s) && s != []
    ensures |Levels(ch, rank, s)| > 0
    ensures InRange(Levels(ch, rank, s)[|Levels(ch, rank, s)| - 1], |ch|)
    ensures NextLevel(ch, Levels(ch, rank, s)[|Levels(ch, rank, s)| - 1]) == []
    decreases RankBound(rank, s)
  {
    LevelsCons(ch, rank, s);
    var next := NextLevel(ch, s);
    if next != [] {
      LevelsLast(ch, rank, next);
    }
  }

  /** The levels are the breadth-first layers: they start at `s`, none is empty, each is the next level of the one before, and the last has no children. */
  lemma LevelsAreLayers(ch: seq<seq<nat>>, rank: seq<nat>, s: seq<nat>)
    requires Ranked(ch, rank, s)
    ensures var levels := Levels(ch, rank, s);
      && (levels == [] <==> s == [])
      && (s != [] ==> levels[0] == s)
      && (forall k :: 0 <= k < |levels| ==> levels[k] != [] && Ranked(ch, rank, levels[k]))
      && (forall k :: 0 <= k < |levels| - 1 ==> levels[k + 1] == NextLevel(ch, levels[k]))
      && (s != [] ==> NextLevel(ch, levels[|levels| - 1]) == [])
  {
    var levels := Levels(ch, rank, s);
    if s != [] {
      LevelsCons(ch, rank, s);
      LevelsLast(ch, rank, s);
    }
    forall k | 0 <= k < |levels| ensures levels[k] != [] && Ranked(ch, rank, levels[k]) {
      LevelAt(ch, rank, s, k);
    }
    forall k | 0 <= k < |levels| - 1 ensures levels[k + 1] == NextLevel(ch, levels[k]) {
      LevelStep(ch, rank, s, k);
    }
  }

  /** A missing level reads as the empty slice, as indexing a Go map does. */
  function Lookup(m: map<nat, seq<nat>>, l: nat): seq<nat>
  {
    if l in m then m[l] else []
  }

  /** The inner loops of `traverseByLevel`: gather the children of `nodes`, in order. */
  method CollectNextLevel(children: array<seq<nat>>, nodes: seq<nat>) returns (nextLevel: seq<nat>)
    requires InRange(nodes, children.Length)
    ensures nextLevel == NextLevel(children[..], nodes)
  {
    nextLevel := [];
    for i := 0 to |nodes|
      invariant nextLevel == NextLevel(children[..], nodes[..i])
    {
      var kids := children[nodes[i]];
      for j := 0 to |kids|
        invariant nextLevel == NextLevel(children[..], nodes[..i]) + kids[..j]
      {
        nextLevel := nextLevel + [kids[j]];
      }
      assert nodes[..i + 1][..i] == nodes[..i];
    }
    assert nodes[..|nodes|] == nodes;
  }

  /**
   * `out` is `result` with `levels[k]` appended to the entry for depth
   * `level + k`, for every k; entries outside those depths are untouched.
   */
  ghost predicate AppendedLevels(result: map<nat, seq<nat>>, out: map<nat, seq<nat>>, level: nat, levels: seq<seq<nat>>)
  {
    && (forall l: nat :: l in out <==> l in result || level <= l < level + |levels|)
    && (forall l: nat :: l in out ==>
          out[l] == Lookup(result, l) + (if level <= l < level + |levels| then levels[l - level] else []))
  }

  /** `traverseByLevel`: appends each level of `nodes` to the entry for its depth, starting at `level`. */
  method TraverseByLevel(children: array<seq<nat>>, nodes: seq<nat>, level: nat, result: map<nat, seq<nat>>, ghost rank: seq<nat>)
    returns (out: map<nat, seq<nat>>)
    requires Ranked(children[..], rank, nodes)
    ensures AppendedLevels(result, out, level, Levels(children[..], rank, nodes))
    decreases RankBound(rank, nodes)
  {
    if |nodes| == 0 {
      return result;
    }
    var out1 := result[level := Lookup(result, level) + nodes];
    var nextLevel := CollectNextLevel(children, nodes);
    NextLevelRanked(children[..], rank, nodes);
    ghost var ch := children[..];
    ghost var below := Levels(ch, rank, nextLevel);
    assert Levels(ch, rank, nodes) == [nodes] + below;
    out := out1;
    if |nextLevel| > 0 {
      out := TraverseByLevel(children, nextLevel, level + 1, out1, rank);
      assert children[..] == ch;
      assert AppendedLevels(out1, out, level + 1, below);
    } else {
      assert below == [];
      AppendNothing(out1, level + 1);
    }
    AppendLevels(result, out1, out, level, nodes, below);
  }

  lemma AppendNothing(m: map<nat, seq<nat>>, level: nat)
    ensures AppendedLevels(m, m, level, [])
  {
    forall l: nat | l in m ensures m[l] == Lookup(m, l) + [] { }
  }

  /** One depth of the bookkeeping below. */
  lemma AppendLevelsAt(result: map<nat, seq<nat>>, out1: map<nat, seq<nat>>, out: map<nat, seq<nat>>, level: nat,
                       nodes: seq<nat>, below: seq<seq<nat>>, l: nat)
    requires out1 == result[level := Lookup(result, level) + nodes]
    requires AppendedLevels(out1, out, level + 1, below)
    ensures var levels := [nodes] + below;
      && (l in out <==> l in result || level <= l < level + |levels|)
      && (l in out ==> out[l] == Lookup(result, l) + (if level <= l < level + |levels| then levels[l - level] else []))
  {
    var levels := [nodes] + below;
    if l == level {
      assert levels[0] == nodes;
    } else {
      assert Lookup(out1, l) == Lookup(result, l);
      if level < l < level + |levels| {
        assert levels[l - level] == below[l - level - 1];
      }
    }
  }

  /** Bookkeeping for one step of `traverseByLevel`: the map after the level and after the levels below it. */
  lemma AppendLevels(result: map<nat, seq<nat>>, out1: map<nat, seq<nat>>, out: map<nat, seq<nat>>, level: nat,
                     nodes: seq<nat>, below: seq<seq<nat>>)
    requires out1 == result[level := Lookup(result, level) + nodes]
    requires AppendedLevels(out1, out, level + 1, below)
    ensures AppendedLevels(result, out, level, [nodes] + below)
  {
    forall l: nat
      ensures var levels := [nodes] + below;
        && (l in out <==> l in result || level <= l < level + |levels|)
        && (l in out ==> out[l] == Lookup(result, l) + (if level <= l < level + |levels| then levels[l - level] else []))
    {
      AppendLevelsAt(result, out1, out, level, nodes, below, l);
    }
  }

  /** `GetNodesByLevel`: level l maps to the l-th breadth-first layer below `roots`. */
  method GetNodesByLevel(children: array<seq<nat>>, roots: seq<nat>, ghost rank: seq<nat>) returns (result: map<nat, seq<nat>>)
    requires Ranked(children[..], rank, roots)
    ensures forall l: nat :: l in result <==> l < |Levels(children[..], rank, roots)|
    ensures forall l: nat :: l in result ==> result[l] == Levels(children[..], rank, roots)[l]
  {
    result := map[];
    if |roots| == 0 {
      assert Levels(children[..], rank, roots) == [];
      return;
    }
    result := TraverseByLevel(children, roots, 0, result, rank);
    assert AppendedLevels(map[], result, 0, Levels(children[..], rank, roots));
  }

  /** The height of `x`'s subtree: 0 for a leaf, else one more than its tallest child. */
  ghost function Height(ch: seq<seq<nat>>, rank: seq<nat>, x: nat): nat
    requires WellRanked(ch, rank, x)
    decreases rank[x] + 1, 0
  {
    if ch[x] == [] then 0 else 1 + MaxHeight(ch, rank, ch[x])
  }

  /** The greatest height of the nodes in `s` (0 for none). */
  ghost function MaxHeight(ch: seq<seq<nat>>, rank: seq<nat>, s: seq<nat>): nat
    requires Ranked(ch, rank, s)
    decreases RankBound(rank, s), |s|
  {
    if s == [] then 0
    else
      var p := s[..|s| - 1];
      assert forall j :: 0 <= j < |p| ==> p[j] == s[j];
      var a, b := MaxHeight(ch, rank, p), Height(ch, rank, s[|s| - 1]);
      if a < b then b else a
  }

  lemma {:induction false} MaxHeightConcat(ch: seq<seq<nat>>, rank: seq<nat>, a: seq<nat>, b: seq<nat>)
    requires Ranked(ch, rank, a) && Ranked(ch, rank, b)
    ensures Ranked(ch, rank, a + b)
    ensures MaxHeight(ch, rank, a + b) == if MaxHeight(ch, rank, a) < MaxHeight(ch, rank, b) then MaxHeight(ch, rank, b) else MaxHeight(ch, rank, a)
    decreases |b|
  {
    assert forall j :: 0 <= j < |a + b| ==> (a + b)[j] == if j < |a| then a[j] else b[j - |a|];
    if b == [] {
      assert a + b == a;
    } else {
      var b' := b[..|b| - 1];
      assert forall j :: 0 <= j < |b'| ==> b'[j] == b[j];
      MaxHeightConcat(ch, rank, a, b');
      assert (a + b)[..|a + b| - 1] == a + b';
    }
  }

  /** The height of a list is zero when its next level is empty, and otherwise one more than the next level's. */
  lemma {:induction false} MaxHeightNextLevel(ch: seq<seq<nat>>, rank: seq<nat>, s: seq<nat>)
    requires Ranked(ch, rank, s)
    ensures Ranked(ch, rank, NextLevel(ch, s))
    ensures MaxHeight(ch, rank, s) == if NextLevel(ch, s) == [] then 0 else 1 + MaxHeight(ch, rank, NextLevel(ch, s))
    decreases |s|
  {
    NextLevelRanked(ch, rank, s);
    if s != [] {
      var p, x := s[..|s| - 1], s[|s| - 1];
      assert forall j :: 0 <= j < |p| ==> p[j] == s[j];
      MaxHeightNextLevel(ch, rank, p);
      NextLevelRanked(ch, rank, p);
      assert WellRanked(ch, rank, x);
      assert Ranked(ch, rank, ch[x]);
      MaxHeightConcat(ch, rank, NextLevel(ch, p), ch[x]);
    }
  }

  /** The number of levels below a non-empty list is one more than its height. */
  lemma {:induction false} LevelCountIsHeight(ch: seq<seq<nat>>, rank: seq<nat>, s: seq<nat>)
    requires Ranked(ch, rank, s)
    ensures |Levels(ch, rank, s)| == if s == [] then 0 else 1 + MaxHeight(ch, rank, s)
    decreases RankBound(rank, s)
  {
    if s != [] {
      NextLevelRanked(ch, rank, s);
      MaxHeightNextLevel(ch, rank, s);
      LevelCountIsHeight(ch, rank, NextLevel(ch, s));
    }
  }

  /** `getMaxLevelRecursive`: the deepest level reached below `nodes`, counting `nodes` as `currentLevel`. */
  method MaxLevelFrom(children: array<seq<nat>>, nodes: seq<nat>, currentLevel: int, ghost rank: seq<nat>) returns (maxLevel: int)
    requires Ranked(children[..], rank, nodes)
    ensures maxLevel == currentLevel + MaxHeight(children[..], rank, nodes)
    decreases RankBound(rank, nodes)
  {
    maxLevel := currentLevel;
    for i := 0 to |nodes|
      invariant Ranked(children[..], rank, nodes[..i])
      invariant maxLevel == currentLevel + MaxHeight(children[..], rank, nodes[..i])
    {
      TakeSnoc(nodes, i);
      assert WellRanked(children[..], rank, nodes[i]);
      var kids := children[nodes[i]];
      assert Ranked(children[..], rank, kids);
      if |kids| > 0 {
        ghost var j :| 0 <= j < |kids| && RankBound(rank, kids) == rank[kids[j]] + 1;
        var childMax := MaxLevelFrom(children, kids, currentLevel + 1, rank);
        if childMax > maxLevel {
          maxLevel := childMax;
        }
      }
    }
    assert nodes[..|nodes|] == nodes;
  }

  /** `GetMaxLevel`: -1 for no roots, otherwise the index of the deepest level (roots are level 0). */
  method GetMaxLevel(children: array<seq<nat>>, roots: seq<nat>, ghost rank: seq<nat>) returns (level: int)
    requires Ranked(children[..], rank, roots)
    ensures level == |Levels(children[..], rank, roots)| - 1
    ensures roots == [] ==> level == -1
    ensures roots != [] ==> level == MaxHeight(children[..], rank, roots)
  {
    LevelCountIsHeight(children[..], rank, roots);
    if |roots| == 0 {
      return -1;
    }
    level := MaxLevelFrom(children, roots, 0, rank);
  }
}
