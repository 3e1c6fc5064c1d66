/**
 * The tree builder of gutils/tree/builder.go.
 *
 * Unlike the gtree builder, it clears every record's child list in a first
 * pass, before any linking, so a child that precedes its parent in the
 * input is still attached. It has no orphan strategy: a record whose
 * parent key is not indexed is reported and dropped.
 */
module GutilsTree {
  import opened Base
  import opened TreeNodes
  import opened Comparators
  import opened Sorting

  /** Every record's child list after linking: the records linked to it, in input order. */
  function LinkedState<K(==)>(nodes: seq<Record<K>>): (ch: seq<seq<nat>>)
    ensures |ch| == |nodes|
    ensures forall p :: 0 <= p < |nodes| ==> ch[p] == Select(nodes, ChildrenOf(p), 0, |nodes|)
  {
    seq(|nodes|, p requires 0 <= p < |nodes| => Select(nodes, ChildrenOf(p), 0, |nodes|))
  }

  /** The root list before sorting: the root records, in input order. */
  function RootList<K(==)>(nodes: seq<Record<K>>): seq<nat>
  {
    Select(nodes, Roots(false), 0, |nodes|)
  }

  /** The error-handler calls for records 0..k-1: one per record whose parent key is not indexed. */
  function Reported<K(==)>(nodes: seq<Record<K>>, k: nat): seq<(K, K)>
    requires k <= |nodes|
  {
    var orphans := Select(nodes, Orphans, 0, k);
    assert forall j :: 0 <= j < |orphans| ==> orphans[j] in orphans;
    Reports(nodes, orphans)
  }

  /** The first loop of `Build`: clear every child list and index the records by key. */
  method ResetAndIndex<K(==)>(nodes: seq<Record<K>>, children: array<seq<nat>>) returns (nodeMap: map<K, nat>)
    requires children.Length == |nodes|
    modifies children
    ensures nodeMap == KeyIndex(nodes)
    ensures forall p :: 0 <= p < children.Length ==> children[p] == []
  {
    nodeMap := map[];
    for i := 0 to |nodes|
      invariant nodeMap == KeyIndex(nodes[..i])
      invariant forall p :: 0 <= p < i ==> children[p] == []
    {
      nodeMap := ResetAndIndexRecord(nodes, children, i, nodeMap);
    }
    assert nodes[..|nodes|] == nodes;
  }

  /** One iteration of the first loop: clear record i's child list and index it. */
  method ResetAndIndexRecord<K(==)>(nodes: seq<Record<K>>, children: array<seq<nat>>, i: nat, nodeMap: map<K, nat>)
    returns (nodeMap': map<K, nat>)
    requires i < |nodes| == children.Length
    requires nodeMap == KeyIndex(nodes[..i]) && forall p :: 0 <= p < i ==> children[p] == []
    modifies children
    ensures nodeMap' == KeyIndex(nodes[..i + 1]) && forall p :: 0 <= p <= i ==> children[p] == []
  {
    KeyIndexSnoc(nodes, i);
    nodeMap' := nodeMap[nodes[i].key := i];
    children[i] := [];
  }

  /** Every record's child list after the linking loop has visited records 0..k-1. */
  ghost function PartialState<K>(nodes: seq<Record<K>>, k: nat): (ch: seq<seq<nat>>)
    requires k <= |nodes|
    ensures |ch| == |nodes|
    ensures forall p :: 0 <= p < |nodes| ==> ch[p] == Select(nodes, ChildrenOf(p), 0, k)
  {
    seq(|nodes|, p requires 0 <= p < |nodes| => Select(nodes, ChildrenOf(p), 0, k))
  }

  /** Visiting record i appends it to its parent's list if it is linked, and changes nothing otherwise. */
  lemma LinkStep<K>(nodes: seq<Record<K>>, i: nat)
    requires i < |nodes|
    ensures IsLinked(nodes, i) ==>
      var before := PartialState(nodes, i);
      PartialState(nodes, i + 1) == before[ParentOf(nodes, i) := before[ParentOf(nodes, i)] + [i]]
    ensures !IsLinked(nodes, i) ==> PartialState(nodes, i + 1) == PartialState(nodes, i)
  {
  }

  /** Visiting record i adds one handler call exactly when its parent key is not indexed. */
  lemma ReportedStep<K>(nodes: seq<Record<K>>, i: nat)
    requires i < |nodes|
    ensures Reported(nodes, i + 1) ==
      Reported(nodes, i) + (if IsOrphan(nodes, i) then [(nodes[i].key, nodes[i].parentKey)] else [])
  {
    if IsOrphan(nodes, i) {
      var orphans := Select(nodes, Orphans, 0, i);
      assert Select(nodes, Orphans, 0, i + 1) == orphans + [i];
      assert forall j :: 0 <= j < |orphans| ==> orphans[j] in orphans;
      ReportsSnoc(nodes, orphans, i);
    }
  }

  /** One iteration of the linking loop. */
  method LinkRecord<K(==)>(nodes: seq<Record<K>>, nodeMap: map<K, nat>, children: array<seq<nat>>,
                           i: nat, roots: seq<nat>, reports: seq<(K, K)>)
    returns (roots': seq<nat>, reports': seq<(K, K)>)
    requires nodeMap == KeyIndex(nodes) && i < |nodes| == children.Length
    requires roots == Select(nodes, Roots(false), 0, i)
    requires reports == Reported(nodes, i)
    requires children[..] == PartialState(nodes, i)
    modifies children
    ensures roots' == Select(nodes, Roots(false), 0, i + 1)
    ensures reports' == Reported(nodes, i + 1)
    ensures children[..] == PartialState(nodes, i + 1)
  {
    ReportedStep(nodes, i);
    LinkStep(nodes, i);
    roots', reports' := roots, reports;
    var node := nodes[i];
    if node.isRoot {
      roots' := roots + [i];
    } else {
      var parentKey := node.parentKey;
      if parentKey in nodeMap {
        var parent := nodeMap[parentKey];
        assert IsLinked(nodes, i) && ParentOf(nodes, i) == parent;
        children[parent] := children[parent] + [i];
      } else {
        assert IsOrphan(nodes, i);
        reports' := reports + [(node.key, parentKey)];
      }
    }
  }

  /** The second loop of `Build`: roots, handler calls and child lists. */
  method Link<K(==)>(nodes: seq<Record<K>>, nodeMap: map<K, nat>, children: array<seq<nat>>)
    returns (roots: seq<nat>, reports: seq<(K, K)>)
    requires nodeMap == KeyIndex(nodes) && children.Length == |nodes|
    requires forall p :: 0 <= p < children.Length ==> children[p] == []
    modifies children
    ensures roots == RootList(nodes)
    ensures reports == Reported(nodes, |nodes|)
    ensures children[..] == LinkedState(nodes)
  {
    roots, reports := [], [];
    assert children[..] == PartialState(nodes, 0);
    for i := 0 to |nodes|
      invariant roots == Select(nodes, Roots(false), 0, i)
      invariant reports == Reported(nodes, i)
      invariant children[..] == PartialState(nodes, i)
    {
      roots, reports := LinkRecord(nodes, nodeMap, children, i, roots, reports);
    }
    assert PartialState(nodes, |nodes|) == LinkedState(nodes);
  }

  // ---------------------------------------------------------------------
  // Where each record ends up.
  // ---------------------------------------------------------------------

  /**
   * Record i is in q's child list exactly when its parent key resolves to q,
   * wherever i and q stand in the input: the result does not depend on
   * whether a parent precedes its children.
   */
  lemma LinkedChildAttached<K>(nodes: seq<Record<K>>, i: nat, q: nat)
    requires i < |nodes| && q < |nodes|
    ensures i in LinkedState(nodes)[q] <==> IsLinked(nodes, i) && ParentOf(nodes, i) == q
  {
  }

  /** A concrete instance: a child listed before its root parent is still attached to it. */
  lemma ChildBeforeParentKept()
    ensures
      var nodes := [Record(2, 1, false, 0, [], 0), Record(1, 0, true, 0, [], 0)];
      RootList(nodes) == [1] && LinkedState(nodes) == [[], [0]]
  {
    var nodes := [Record(2, 1, false, 0, [], 0), Record(1, 0, true, 0, [], 0)];
    assert KeyIndex(nodes[..1]) == map[2 := 0];
    assert KeyIndex(nodes) == map[2 := 0, 1 := 1];
    assert IsLinked(nodes, 0) && ParentOf(nodes, 0) == 1;
    assert !IsLinked(nodes, 1);
    assert Select(nodes, Roots(false), 0, 1) == [];
    assert Select(nodes, ChildrenOf(1), 0, 1) == [0];
    assert Select(nodes, ChildrenOf(0), 0, 1) == [];
  }

  /** A record whose key is shadowed by a later record with the same key receives no children. */
  lemma ShadowedKeyChildless<K>(nodes: seq<Record<K>>, i: nat)
    requires i < |nodes| && KeyIndex(nodes)[nodes[i].key] != i
    ensures LinkedState(nodes)[i] == []
  {
    ShadowedSelect(nodes, i, |nodes|);
  }

  lemma {:induction false} ShadowedSelect<K>(nodes: seq<Record<K>>, i: nat, k: nat)
    requires i < |nodes| && k <= |nodes| && KeyIndex(nodes)[nodes[i].key] != i
    ensures Select(nodes, ChildrenOf(i), 0, k) == []
  {
    if k > 0 {
      ShadowedSelect(nodes, i, k - 1);
      NotChildOfShadowed(nodes, i, k - 1);
    }
  }

  lemma NotChildOfShadowed<K>(nodes: seq<Record<K>>, i: nat, j: nat)
    requires i < |nodes| && j < |nodes| && KeyIndex(nodes)[nodes[i].key] != i
    ensures !Selected(nodes, ChildrenOf(i), j)
  {
    assert IsLinked(nodes, j) ==> nodes[ParentOf(nodes, j)].key == nodes[j].parentKey;
  }

  /** Input without a root record yields an empty forest: orphans are never promoted. */
  lemma NoRootsEmptyForest<K>(nodes: seq<Record<K>>)
    requires forall i :: 0 <= i < |nodes| ==> !nodes[i].isRoot
    ensures RootList(nodes) == []
  {
    NoRootsSelect(nodes, |nodes|);
  }

  lemma {:induction false} NoRootsSelect<K>(nodes: seq<Record<K>>, k: nat)
    requires k <= |nodes| && forall i :: 0 <= i < |nodes| ==> !nodes[i].isRoot
    ensures Select(nodes, Roots(false), 0, k) == []
  {
    if k > 0 {
      NoRootsSelect(nodes, k - 1);
    }
  }

  /** The total length of all child lists. */
  function TotalLength(ch: seq<seq<nat>>): (t: nat)
    ensures ch == [] ==> t == 0
  {
    if ch == [] then 0 else TotalLength(ch[..|ch| - 1]) + |ch[|ch| - 1]|
  }

  /** Appending one element to one child list adds one to the total length. */
  lemma {:induction false} TotalLengthAppend(ch: seq<seq<nat>>, p: nat, x: nat)
    requires p < |ch|
    ensures TotalLength(ch[p := ch[p] + [x]]) == TotalLength(ch) + 1
    decreases |ch|
  {
    var last := |ch| - 1;
    var ch' := ch[p := ch[p] + [x]];
    if p < last {
      assert ch'[..last] == ch[..last][p := ch[p] + [x]];
      TotalLengthAppend(ch[..last], p, x);
    } else {
      assert ch'[..last] == ch[..last];
    }
  }

  /** How many placements the linking loop has made after visiting records 0..k-1. */
  ghost function Placed<K>(nodes: seq<Record<K>>, k: nat): nat
    requires k <= |nodes|
  {
    |Select(nodes, Roots(false), 0, k)| + TotalLength(PartialState(nodes, k)) + |Reported(nodes, k)|
  }

  /**
   * Records 0..k-1 are each placed exactly once: as a root, in one child
   * list, or in the handler log.
   */
  lemma PlacedOnce<K>(nodes: seq<Record<K>>, k: nat)
    requires k <= |nodes|
    ensures Placed(nodes, k) == k
  {
    PlacedNone(nodes);
    for j := 0 to k
      invariant Placed(nodes, j) == j
    {
      PlacedStep(nodes, j);
    }
  }

  /** Before the linking loop nothing is placed. */
  lemma PlacedNone<K>(nodes: seq<Record<K>>)
    ensures Placed(nodes, 0) == 0
  {
    EmptyTotalLength(PartialState(nodes, 0));
  }

  /** Visiting record i places it in exactly one of the three outcomes. */
  lemma PlacedStep<K>(nodes: seq<Record<K>>, i: nat)
    requires i < |nodes|
    ensures Placed(nodes, i + 1) == Placed(nodes, i) + 1
  {
    ReportedStep(nodes, i);
    LinkStep(nodes, i);
    if IsLinked(nodes, i) {
      TotalLengthAppend(PartialState(nodes, i), ParentOf(nodes, i), i);
    }
  }

  /** With no child lists filled in, the total length is zero. */
  lemma {:induction false} EmptyTotalLength(ch: seq<seq<nat>>)
    requires forall p :: 0 <= p < |ch| ==> ch[p] == []
    ensures TotalLength(ch) == 0
  {
    if ch != [] {
      EmptyTotalLength(ch[..|ch| - 1]);
    }
  }

  /**
   * `Build` partitions its input: a record is a root exactly when it is
   * marked as one, is in some child list exactly when its parent key
   * resolves, and is reported exactly when it does not; and the roots, the
   * child lists and the handler calls together account for every record once.
   */
  lemma Partition<K>(nodes: seq<Record<K>>)
    ensures forall i :: 0 <= i < |nodes| ==> (i in RootList(nodes) <==> nodes[i].isRoot)
    ensures forall i, q :: 0 <= i < |nodes| && 0 <= q < |nodes| ==>
      (i in LinkedState(nodes)[q] <==> IsLinked(nodes, i) && ParentOf(nodes, i) == q)
    ensures forall i :: 0 <= i < |nodes| ==>
      ((nodes[i].key, nodes[i].parentKey) in Reported(nodes, |nodes|) <== IsOrphan(nodes, i))
    ensures |RootList(nodes)| + TotalLength(LinkedState(nodes)) + |Reported(nodes, |nodes|)| == |nodes|
  {
    forall i, q | 0 <= i < |nodes| && 0 <= q < |nodes|
      ensures i in LinkedState(nodes)[q] <==> IsLinked(nodes, i) && ParentOf(nodes, i) == q
    {
      LinkedChildAttached(nodes, i, q);
    }
    OrphansReported(nodes);
    PlacedAll(nodes);
  }

  lemma OrphansReported<K>(nodes: seq<Record<K>>)
    ensures forall i :: 0 <= i < |nodes| && IsOrphan(nodes, i) ==>
      (nodes[i].key, nodes[i].parentKey) in Reported(nodes, |nodes|)
  {
    var orphans := Select(nodes, Orphans, 0, |nodes|);
    forall i | 0 <= i < |nodes| && IsOrphan(nodes, i)
      ensures (nodes[i].key, nodes[i].parentKey) in Reported(nodes, |nodes|)
    {
      assert i in orphans;
      var j :| 0 <= j < |orphans| && orphans[j] == i;
      assert forall t :: 0 <= t < |orphans| ==> orphans[t] in orphans;
      assert Reported(nodes, |nodes|)[j] == (nodes[i].key, nodes[i].parentKey);
    }
  }

  lemma PlacedAll<K>(nodes: seq<Record<K>>)
    ensures |RootList(nodes)| + TotalLength(LinkedState(nodes)) + |Reported(nodes, |nodes|)| == |nodes|
  {
    PlacedOnce(nodes, |nodes|);
    assert PartialState(nodes, |nodes|) == LinkedState(nodes);
  }

  // ---------------------------------------------------------------------
  // The forest below the roots is finite. A record has at most one parent
  // and a root is in no child list, so following parent links upwards from
  // a record reachable from a root ends at that root within |nodes| steps.
  // The depth of that walk gives a rank that drops along every child link.
  // ---------------------------------------------------------------------

  /** One step up from each record: its parent if it is linked, itself otherwise. */
  ghost function UpLinks<K>(nodes: seq<Record<K>>): (up: seq<nat>)
    ensures |up| == |nodes|
    ensures forall x :: 0 <= x < |nodes| ==> up[x] == if IsLinked(nodes, x) then ParentOf(nodes, x) else x
  {
    seq(|nodes|, x requires 0 <= x < |nodes| => if IsLinked(nodes, x) then ParentOf(nodes, x) else x)
  }

  /** The record reached from i by k steps up. */
  ghost function Ancestor(up: seq<nat>, i: nat, k: nat): (a: nat)
    requires i < |up| && InRange(up, |up|)
    ensures a < |up|
  {
    if k == 0 then i else up[Ancestor(up, i, k - 1)]
  }

  lemma {:induction false} AncestorShift(up: seq<nat>, i: nat, a: nat, b: nat)
    requires i < |up| && InRange(up, |up|)
    ensures Ancestor(up, i, a + b) == Ancestor(up, Ancestor(up, i, a), b)
    decreases b
  {
    if b > 0 {
      AncestorShift(up, i, a, b - 1);
    }
  }

  /** For each record, whether the upward walk stops there (it is not linked). */
  ghost function Stops<K>(nodes: seq<Record<K>>): (stop: seq<bool>)
    ensures |stop| == |nodes|
    ensures forall x :: 0 <= x < |nodes| ==> stop[x] == !IsLinked(nodes, x)
  {
    seq(|nodes|, x requires 0 <= x < |nodes| => !IsLinked(nodes, x))
  }

  /** A parent vector over n records with a stop flag for each. */
  ghost predicate Walkable(up: seq<nat>, stop: seq<bool>)
  {
    |stop| == |up| && InRange(up, |up|)
  }

  /** The walk from i has reached a stopping record after d steps. */
  ghost predicate Grounded(up: seq<nat>, stop: seq<bool>, i: nat, d: nat)
    requires Walkable(up, stop) && i < |up|
  {
    stop[Ancestor(up, i, d)]
  }

  /** The least d in [from, |up|) at which the walk from i is grounded, or |up| if there is none. */
  ghost function DepthFrom(up: seq<nat>, stop: seq<bool>, i: nat, from: nat): (d: nat)
    requires Walkable(up, stop) && i < |up| && from <= |up|
    ensures from <= d <= |up|
    ensures d < |up| ==> Grounded(up, stop, i, d)
    ensures forall j :: from <= j < d && j < |up| ==> !Grounded(up, stop, i, j)
    decreases |up| - from
  {
    if from == |up| || Grounded(up, stop, i, from) then from else DepthFrom(up, stop, i, from + 1)
  }

  /** The number of parent links from record i up to a record that is not linked (|nodes| if the walk never ends). */
  ghost function Depth<K>(nodes: seq<Record<K>>, i: nat): nat
    requires i < |nodes|
  {
    DepthFrom(UpLinks(nodes), Stops(nodes), i, 0)
  }

  /** A rank that drops along every child link below the roots. */
  ghost function DepthRank<K>(nodes: seq<Record<K>>): (rank: seq<nat>)
    ensures |rank| == |nodes|
    ensures forall i :: 0 <= i < |nodes| ==> rank[i] == |nodes| - Depth(nodes, i)
  {
    seq(|nodes|, i requires 0 <= i < |nodes| => |nodes| - Depth(nodes, i))
  }

  /** Pigeonhole: distinct naturals below n are at most n many. */
  lemma {:induction false} DistinctBound(s: seq<nat>, n: nat)
    requires forall i :: 0 <= i < |s| ==> s[i] < n
    requires forall i, j :: 0 <= i < j < |s| ==> s[i] != s[j]
    ensures |s| <= n
  {
    if s != [] {
      assert s[0] < n;
      if k :| 0 <= k < |s| && s[k] == n - 1 {
        var t := s[..k] + s[k + 1..];
        assert forall i :: 0 <= i < |t| ==> t[i] == if i < k then s[i] else s[i + 1];
        DistinctBound(t, n - 1);
      } else {
        DistinctBound(s, n - 1);
      }
    }
  }

  /** A walk that is first grounded after m steps does not revisit a record before that. */
  lemma WalkNoRepeat(up: seq<nat>, stop: seq<bool>, i: nat, m: nat, a: nat, b: nat)
    requires Walkable(up, stop) && i < |up| && Grounded(up, stop, i, m)
    requires forall j :: 0 <= j < m ==> !Grounded(up, stop, i, j)
    requires a < b <= m
    ensures Ancestor(up, i, a) != Ancestor(up, i, b)
  {
    AncestorShift(up, i, b, m - b);
    AncestorShift(up, i, a, m - b);
    assert !Grounded(up, stop, i, a + (m - b));
  }

  /** A walk that is first grounded after m steps visits m + 1 distinct records, so m < |up|. */
  lemma GroundedWithinBound(up: seq<nat>, stop: seq<bool>, i: nat, m: nat)
    requires Walkable(up, stop) && i < |up| && Grounded(up, stop, i, m)
    requires forall j :: 0 <= j < m ==> !Grounded(up, stop, i, j)
    ensures m < |up|
  {
    var walk := seq(m + 1, k requires 0 <= k <= m => Ancestor(up, i, k));
    forall a, b | 0 <= a < b < |walk| ensures walk[a] != walk[b] {
      WalkNoRepeat(up, stop, i, m, a, b);
    }
    DistinctBound(walk, |up|);
  }

  /** A walk from c whose first step goes to p is grounded one step later than the walk from p. */
  lemma StepDepth(up: seq<nat>, stop: seq<bool>, c: nat)
    requires Walkable(up, stop) && c < |up| && !stop[c]
    requires DepthFrom(up, stop, up[c], 0) < |up|
    ensures DepthFrom(up, stop, c, 0) == DepthFrom(up, stop, up[c], 0) + 1 < |up|
  {
    var p := up[c];
    var m := DepthFrom(up, stop, p, 0);
    forall k: nat ensures Ancestor(up, c, 1 + k) == Ancestor(up, p, k) {
      AncestorShift(up, c, 1, k);
    }
    assert Grounded(up, stop, c, m + 1) by {
      assert Ancestor(up, c, 1 + m) == Ancestor(up, p, m);
    }
    forall j | 0 <= j < m + 1 ensures !Grounded(up, stop, c, j) {
      if j == 0 {
        assert Ancestor(up, c, 0) == c;
      } else {
        assert !Grounded(up, stop, p, j - 1);
        assert Ancestor(up, c, 1 + (j - 1)) == Ancestor(up, p, j - 1);
      }
    }
    GroundedWithinBound(up, stop, c, m + 1);
  }

  /** A linked record is one step further from the roots than its parent. */
  lemma ChildDepth<K>(nodes: seq<Record<K>>, c: nat)
    requires c < |nodes| && IsLinked(nodes, c)
    requires Depth(nodes, ParentOf(nodes, c)) < |nodes|
    ensures Depth(nodes, c) == Depth(nodes, ParentOf(nodes, c)) + 1 < |nodes|
  {
    StepDepth(UpLinks(nodes), Stops(nodes), c);
  }

  /** Everything below a record with a finite upward walk is well ranked by `DepthRank`. */
  lemma {:induction false} GroundedWellRanked<K>(nodes: seq<Record<K>>, x: nat)
    requires x < |nodes| && Depth(nodes, x) < |nodes|
    ensures WellRanked(LinkedState(nodes), DepthRank(nodes), x)
    decreases |nodes| - Depth(nodes, x)
  {
    var ch, rank := LinkedState(nodes), DepthRank(nodes);
    forall i | 0 <= i < |ch[x]|
      ensures ch[x][i] < |ch| && ch[x][i] < |rank| && rank[ch[x][i]] < rank[x] && WellRanked(ch, rank, ch[x][i])
    {
      var c := ch[x][i];
      assert c in ch[x];
      ChildDepth(nodes, c);
      GroundedWellRanked(nodes, c);
    }
  }

  /** The forest below the roots is finite: every root is well ranked by `DepthRank`. */
  lemma RootsWellRanked<K>(nodes: seq<Record<K>>)
    ensures forall j :: 0 <= j < |RootList(nodes)| ==> WellRanked(LinkedState(nodes), DepthRank(nodes), RootList(nodes)[j])
  {
    var roots := RootList(nodes);
    forall j | 0 <= j < |roots| ensures WellRanked(LinkedState(nodes), DepthRank(nodes), roots[j]) {
      assert roots[j] in roots;
      assert Grounded(UpLinks(nodes), Stops(nodes), roots[j], 0);
      GroundedWellRanked(nodes, roots[j]);
    }
  }

  // ---------------------------------------------------------------------
  // Sorting.
  // ---------------------------------------------------------------------

  /** `sortNodes`: sorts the list with the comparator; without one, leaves it as it is. */
  method SortNodes<K>(comparator: Option<Comparator>, nodes: seq<Record<K>>, list: seq<nat>) returns (sorted: seq<nat>)
    requires InRange(list, |nodes|)
    ensures comparator.None? ==> sorted == list
    ensures comparator.Some? ==> SortedPermOf(comparator.value, nodes, sorted, list)
  {
    if comparator.None? {
      return list;
    }
    sorted := SortSlice(comparator.value, nodes, list);
  }

  /** `sortChildrenRecursive`: below each element of `list`, every child list is replaced by a sorted permutation of itself. */
  method SortChildrenRecursive<K>(c: Comparator, nodes: seq<Record<K>>, children: array<seq<nat>>, list: seq<nat>,
                                  ghost rank: seq<nat>)
    requires children.Length == |nodes| && InRange(list, |rank|)
    requires forall j :: 0 <= j < |list| ==> WellRanked(children[..], rank, list[j])
    modifies children
    ensures SortedBelow(c, nodes, old(children[..]), children[..], rank, list)
    decreases RankBound(rank, list), 1
  {
    ghost var ch0 := children[..];
    for i := 0 to |list|
      invariant SortedBelow(c, nodes, ch0, children[..], rank, list[..i])
    {
      TakeSnoc(list, i);
      SortChildrenOf(c, nodes, children, list[i], rank, ch0, list[..i]);
    }
    assert list[..|list|] == list;
  }

  /** One iteration of `sortChildrenRecursive`: sort `node`'s children into a new list, store it, and recurse into it. */
  method SortChildrenOf<K>(c: Comparator, nodes: seq<Record<K>>, children: array<seq<nat>>, node: nat,
                           ghost rank: seq<nat>, ghost ch0: seq<seq<nat>>, ghost done: seq<nat>)
    requires children.Length == |nodes|
    requires SortedBelow(c, nodes, ch0, children[..], rank, done)
    requires WellRanked(ch0, rank, node)
    modifies children
    ensures SortedBelow(c, nodes, ch0, children[..], rank, done + [node])
    decreases rank[node] + 1, 0
  {
    ghost var ch1 := children[..];
    SortedBelowSameChildren(c, nodes, ch0, ch1, rank, done);
    var kids := children[node];
    if |kids| > 0 {
      var typed := SortOwnChildren(c, nodes, children, node, rank, ch0);
      ghost var ch2 := children[..];
      SortChildrenRecursive(c, nodes, children, typed, rank);
      SortStep(c, nodes, rank, ch0, ch1, ch2, children[..], done, node);
    } else {
      SortStep(c, nodes, rank, ch0, ch1, ch1, ch1, done, node);
    }
  }

  /** The first half of an iteration: sort a copy of `node`'s children and store it back as its child list. */
  method SortOwnChildren<K>(c: Comparator, nodes: seq<Record<K>>, children: array<seq<nat>>, node: nat,
                            ghost rank: seq<nat>, ghost ch0: seq<seq<nat>>) returns (typed: seq<nat>)
    requires children.Length == |nodes|
    requires WellRanked(ch0, rank, node) && SameChildren(ch0, children[..])
    modifies children
    ensures children[..] == old(children[..])[node := typed]
    ensures SortedPermOf(c, nodes, typed, old(children[node]))
    ensures InRange(typed, |rank|)
    ensures forall j :: 0 <= j < |typed| ==> rank[typed[j]] < rank[node] && WellRanked(children[..], rank, typed[j])
  {
    ChildrenWellRanked(ch0, children[..], rank, node);
    var kids := children[node];
    typed := SortNodes(Some(c), nodes, kids);
    children[node] := typed;
    ChildrenWellRanked(ch0, children[..], rank, node);
  }

  /** `Build`: reset and index, link, then sort the roots and every child list below them when a comparator is set. */
  method Build<K(==)>(comparator: Option<Comparator>, nodes: seq<Record<K>>, children: array<seq<nat>>)
    returns (roots: seq<nat>, reports: seq<(K, K)>)
    requires children.Length == |nodes|
    modifies children
    ensures |nodes| == 0 ==> roots == [] && reports == []
    ensures reports == Reported(nodes, |nodes|)
    ensures comparator.None? ==> roots == RootList(nodes) && children[..] == LinkedState(nodes)
    ensures comparator.Some? ==>
      SortedPermOf(comparator.value, nodes, roots, RootList(nodes)) &&
      SortedBelow(comparator.value, nodes, LinkedState(nodes), children[..], DepthRank(nodes), RootList(nodes))
  {
    if |nodes| == 0 {
      return [], [];
    }
    var nodeMap := ResetAndIndex(nodes, children);
    roots, reports := Link(nodes, nodeMap, children);
    if comparator.Some? {
      ghost var unsorted := roots;
      assert forall j :: 0 <= j < |roots| ==> roots[j] in roots;
      roots := SortNodes(comparator, nodes, roots);
      RootsWellRanked(nodes);
      forall j | 0 <= j < |roots| ensures WellRanked(children[..], DepthRank(nodes), roots[j]) {
        assert roots[j] in multiset(unsorted);
      }
      SortChildrenRecursive(comparator.value, nodes, children, roots, DepthRank(nodes));
      SortedBelowPermutation(comparator.value, nodes, LinkedState(nodes), children[..], DepthRank(nodes), roots, unsorted);
    }
  }
}
