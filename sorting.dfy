/**
 * Sorting of record lists by a comparator, and the recursive "sort every
 * child list below these nodes" effect that both builder variants produce.
 *
 * Go's `sort.Slice` is a library call and is not stable; the model stands
 * it in with an insertion sort (`SortSlice`) and the builder methods rely
 * only on its contract: the result is a permutation of the input in which
 * each adjacent pair compares `<= 0`.
 *
 * Child lists are given as `ch: seq<seq<nat>>` (`ch[p]` is record p's
 * children, by position). Termination of the recursive descent is argued
 * with a ranking `rank` that strictly drops from a node to each child.
 */
module Sorting {
  import opened Base
  import opened TreeNodes
  import opened Comparators

  predicate InRange(s: seq<nat>, n: nat)
  {
    forall i :: 0 <= i < |s| ==> s[i] < n
  }

  /** Each adjacent pair of the list compares `<= 0`. */
  ghost predicate SortedBy<K>(c: Comparator, nodes: seq<Record<K>>, t: seq<nat>)
  {
    InRange(t, |nodes|) &&
    forall i :: 0 <= i < |t| - 1 ==> Compare(c, nodes[t[i]], nodes[t[i + 1]]) <= 0
  }

  /** `t` is `s` reordered so that it is sorted by `c`. */
  ghost predicate SortedPermOf<K>(c: Comparator, nodes: seq<Record<K>>, t: seq<nat>, s: seq<nat>)
  {
    multiset(t) == multiset(s) && SortedBy(c, nodes, t)
  }

  /** Inserts `x` before the first element it does not compare above. */
  function Insert<K>(c: Comparator, nodes: seq<Record<K>>, x: nat, t: seq<nat>): (r: seq<nat>)
    requires x < |nodes| && InRange(t, |nodes|)
    ensures multiset(r) == multiset(t) + multiset{x}
    ensures InRange(r, |nodes|)
    ensures r[0] == x || (t != [] && r[0] == t[0])
  {
    if t == [] || Compare(c, nodes[x], nodes[t[0]]) <= 0 then [x] + t
    else
      var rest := Insert(c, nodes, x, t[1..]);
      assert t == [t[0]] + t[1..];
      [t[0]] + rest
  }

  /** Inserting into a sorted list keeps it sorted. */
  lemma {:induction false} InsertSorted<K>(c: Comparator, nodes: seq<Record<K>>, x: nat, t: seq<nat>)
    requires x < |nodes| && SortedBy(c, nodes, t)
    ensures SortedBy(c, nodes, Insert(c, nodes, x, t))
  {
    if t == [] || Compare(c, nodes[x], nodes[t[0]]) <= 0 {
      ConsSorted(c, nodes, x, t);
    } else {
      TailSorted(c, nodes, t);
      InsertSorted(c, nodes, x, t[1..]);
      CompareFlip(c, nodes[x], nodes[t[0]]);
      ConsSorted(c, nodes, t[0], Insert(c, nodes, x, t[1..]));
    }
  }

  /** Dropping the head keeps a list sorted. */
  lemma TailSorted<K>(c: Comparator, nodes: seq<Record<K>>, t: seq<nat>)
    requires t != []
    ensures SortedBy(c, nodes, t) ==> SortedBy(c, nodes, t[1..]) && (|t| > 1 ==> Compare(c, nodes[t[0]], nodes[t[1]]) <= 0)
  {
  }

  /** A head that compares `<= 0` to the first element of a sorted list keeps it sorted. */
  lemma ConsSorted<K>(c: Comparator, nodes: seq<Record<K>>, a: nat, rest: seq<nat>)
    requires a < |nodes| && InRange(rest, |nodes|)
    ensures SortedBy(c, nodes, rest) && (rest != [] ==> Compare(c, nodes[a], nodes[rest[0]]) <= 0) ==>
      SortedBy(c, nodes, [a] + rest)
  {
    assert forall i :: 1 <= i < |[a] + rest| ==> ([a] + rest)[i] == rest[i - 1];
  }

  /** The model of `sort.Slice(s, func(i, j) { return Compare(s[i], s[j]) < 0 })`. */
  function SortSlice<K>(c: Comparator, nodes: seq<Record<K>>, s: seq<nat>): (r: seq<nat>)
    requires InRange(s, |nodes|)
    ensures SortedPermOf(c, nodes, r, s)
  {
    if s == [] then []
    else
      assert s == [s[0]] + s[1..];
      InsertSorted(c, nodes, s[0], SortSlice(c, nodes, s[1..]));
      Insert(c, nodes, s[0], SortSlice(c, nodes, s[1..]))
  }

  /** In a list sorted by adjacent pairs, every earlier element compares `<= 0` to every later one. */
  lemma {:induction false} SortedPairwise<K>(c: Comparator, nodes: seq<Record<K>>, t: seq<nat>, i: nat, j: nat)
    requires SortedBy(c, nodes, t) && i < j < |t|
    ensures Compare(c, nodes[t[i]], nodes[t[j]]) <= 0
    decreases j - i
  {
    if i + 1 < j {
      SortedPairwise(c, nodes, t, i + 1, j);
      CompareTransitive(c, nodes[t[i]], nodes[t[i + 1]], nodes[t[j]]);
    }
  }

  /** Every child of `x`, at every depth, has a smaller rank than its parent. */
  ghost predicate WellRanked(ch: seq<seq<nat>>, rank: seq<nat>, x: nat)
    decreases if x < |rank| then rank[x] else 0
  {
    x < |ch| && x < |rank| &&
    forall i :: 0 <= i < |ch[x]| ==>
      ch[x][i] < |ch| && ch[x][i] < |rank| && rank[ch[x][i]] < rank[x] && WellRanked(ch, rank, ch[x][i])
  }

  /** `y` is `x` or a descendant of `x` along rank-decreasing child links. */
  ghost predicate Reaches(ch: seq<seq<nat>>, rank: seq<nat>, x: nat, y: nat)
    decreases if x < |rank| then rank[x] else 0
  {
    x == y ||
    (x < |ch| && x < |rank| &&
     exists i :: 0 <= i < |ch[x]| && ch[x][i] < |rank| && rank[ch[x][i]] < rank[x] && Reaches(ch, rank, ch[x][i], y))
  }

  /** `y` is in the subtree of some element of `list`. */
  ghost predicate InForest(ch: seq<seq<nat>>, rank: seq<nat>, list: seq<nat>, y: nat)
  {
    exists j :: 0 <= j < |list| && Reaches(ch, rank, list[j], y)
  }

  /** Two child-list states that hold the same children per node, in any order. */
  ghost predicate SameChildren(ch: seq<seq<nat>>, ch': seq<seq<nat>>)
  {
    |ch| == |ch'| && forall q :: 0 <= q < |ch| ==> multiset(ch[q]) == multiset(ch'[q])
  }

  /**
   * The effect of sorting recursively below `list`: each node in the subtree
   * of an element of `list` (in `ch0`) has its child list replaced by a sorted
   * permutation of it; every other child list is as it was.
   */
  ghost predicate SortedBelow<K>(c: Comparator, nodes: seq<Record<K>>, ch0: seq<seq<nat>>, ch: seq<seq<nat>>,
                                 rank: seq<nat>, list: seq<nat>)
  {
    |ch| == |ch0| &&
    forall p :: 0 <= p < |ch| ==>
      if InForest(ch0, rank, list, p) then SortedPermOf(c, nodes, ch[p], ch0[p]) else ch[p] == ch0[p]
  }

  lemma SortedBelowSameChildren<K>(c: Comparator, nodes: seq<Record<K>>, ch0: seq<seq<nat>>, ch: seq<seq<nat>>,
                                   rank: seq<nat>, list: seq<nat>)
    requires SortedBelow(c, nodes, ch0, ch, rank, list)
    ensures SameChildren(ch0, ch)
  {
  }

  /** Reordering child lists changes neither reachability ... */
  lemma {:induction false} ReachesSameChildren(ch: seq<seq<nat>>, ch': seq<seq<nat>>, rank: seq<nat>, x: nat, y: nat)
    requires SameChildren(ch, ch')
    ensures Reaches(ch, rank, x, y) == Reaches(ch', rank, x, y)
    decreases if x < |rank| then rank[x] else 0
  {
    if x != y && x < |ch| && x < |rank| {
      if Reaches(ch, rank, x, y) {
        var i :| 0 <= i < |ch[x]| && ch[x][i] < |rank| && rank[ch[x][i]] < rank[x] && Reaches(ch, rank, ch[x][i], y);
        assert ch[x][i] in multiset(ch'[x]);
        var i' :| 0 <= i' < |ch'[x]| && ch'[x][i'] == ch[x][i];
        ReachesSameChildren(ch, ch', rank, ch[x][i], y);
      }
      if Reaches(ch', rank, x, y) {
        var i :| 0 <= i < |ch'[x]| && ch'[x][i] < |rank| && rank[ch'[x][i]] < rank[x] && Reaches(ch', rank, ch'[x][i], y);
        assert ch'[x][i] in multiset(ch[x]);
        var i' :| 0 <= i' < |ch[x]| && ch[x][i'] == ch'[x][i];
        ReachesSameChildren(ch, ch', rank, ch[x][i'], y);
      }
    }
  }

  /** ... nor the ranking argument. */
  lemma {:induction false} WellRankedSameChildren(ch: seq<seq<nat>>, ch': seq<seq<nat>>, rank: seq<nat>, x: nat)
    requires SameChildren(ch, ch') && WellRanked(ch, rank, x)
    ensures WellRanked(ch', rank, x)
    decreases rank[x]
  {
    forall i | 0 <= i < |ch'[x]|
      ensures ch'[x][i] < |ch'| && ch'[x][i] < |rank| && rank[ch'[x][i]] < rank[x] && WellRanked(ch', rank, ch'[x][i])
    {
      assert ch'[x][i] in multiset(ch[x]);
      var j :| 0 <= j < |ch[x]| && ch[x][j] == ch'[x][i];
      WellRankedSameChildren(ch, ch', rank, ch[x][j]);
    }
  }

  lemma InForestPermutation(ch: seq<seq<nat>>, rank: seq<nat>, list: seq<nat>, list': seq<nat>, y: nat)
    requires multiset(list) == multiset(list')
    ensures InForest(ch, rank, list, y) == InForest(ch, rank, list', y)
  {
    if InForest(ch, rank, list, y) {
      var j :| 0 <= j < |list| && Reaches(ch, rank, list[j], y);
      assert list[j] in multiset(list');
      var j' :| 0 <= j' < |list'| && list'[j'] == list[j];
    }
    if InForest(ch, rank, list', y) {
      var j :| 0 <= j < |list'| && Reaches(ch, rank, list'[j], y);
      assert list'[j] in multiset(list);
      var j' :| 0 <= j' < |list| && list[j'] == list'[j];
    }
  }

  /**
   * One step of the recursive descent: `node`'s child list is sorted (from
   * `ch1` to `ch2`) and then everything below its new child list is sorted
   * (from `ch2` to `ch3`).
   */
  lemma SortStep<K>(c: Comparator, nodes: seq<Record<K>>, rank: seq<nat>, ch0: seq<seq<nat>>,
                    ch1: seq<seq<nat>>, ch2: seq<seq<nat>>, ch3: seq<seq<nat>>, done: seq<nat>, node: nat)
    requires SortedBelow(c, nodes, ch0, ch1, rank, done)
    requires WellRanked(ch0, rank, node)
    requires |ch2| == |ch1| && SortedPermOf(c, nodes, ch2[node], ch1[node])
    requires forall q :: 0 <= q < |ch1| && q != node ==> ch2[q] == ch1[q]
    requires SortedBelow(c, nodes, ch2, ch3, rank, ch2[node])
    ensures SortedBelow(c, nodes, ch0, ch3, rank, done + [node])
  {
    assert SameChildren(ch0, ch2);
    var kids := ch2[node];
    forall p | 0 <= p < |ch3|
      ensures if InForest(ch0, rank, done + [node], p) then SortedPermOf(c, nodes, ch3[p], ch0[p]) else ch3[p] == ch0[p]
    {
      ReachesFromChildren(ch0, ch2, rank, node, p);
      InForestSnoc(ch0, rank, done, node, p);
    }
  }

  /** The subtree of `node` is `node` itself plus the subtrees of its children, in any reordering. */
  lemma ReachesFromChildren(ch0: seq<seq<nat>>, ch2: seq<seq<nat>>, rank: seq<nat>, node: nat, p: nat)
    requires WellRanked(ch0, rank, node) && SameChildren(ch0, ch2)
    ensures Reaches(ch0, rank, node, p) <==> p == node || InForest(ch2, rank, ch2[node], p)
  {
    if InForest(ch2, rank, ch2[node], p) {
      var j :| 0 <= j < |ch2[node]| && Reaches(ch2, rank, ch2[node][j], p);
      assert ch2[node][j] in multiset(ch0[node]);
      var i :| 0 <= i < |ch0[node]| && ch0[node][i] == ch2[node][j];
      ReachesSameChildren(ch0, ch2, rank, ch0[node][i], p);
    }
    if p != node && Reaches(ch0, rank, node, p) {
      var i :| 0 <= i < |ch0[node]| && ch0[node][i] < |rank| && rank[ch0[node][i]] < rank[node] && Reaches(ch0, rank, ch0[node][i], p);
      assert ch0[node][i] in multiset(ch2[node]);
      var j :| 0 <= j < |ch2[node]| && ch2[node][j] == ch0[node][i];
      ReachesSameChildren(ch0, ch2, rank, ch0[node][i], p);
    }
  }

  lemma InForestSnoc(ch: seq<seq<nat>>, rank: seq<nat>, done: seq<nat>, node: nat, p: nat)
    ensures InForest(ch, rank, done + [node], p) <==> InForest(ch, rank, done, p) || Reaches(ch, rank, node, p)
  {
    var list := done + [node];
    if InForest(ch, rank, list, p) {
      var j :| 0 <= j < |list| && Reaches(ch, rank, list[j], p);
      if j < |done| { assert list[j] == done[j]; }
    }
    if InForest(ch, rank, done, p) {
      var j :| 0 <= j < |done| && Reaches(ch, rank, done[j], p);
      assert list[j] == done[j];
    }
    assert list[|done|] == node;
  }

  /** One more than the largest rank in `s` (0 for an empty list): a termination measure for descents. */
  ghost function RankBound(rank: seq<nat>, s: seq<nat>): (b: nat)
    requires InRange(s, |rank|)
    ensures forall j :: 0 <= j < |s| ==> rank[s[j]] < b
    ensures s == [] ==> b == 0
    ensures s != [] ==> exists j :: 0 <= j < |s| && b == rank[s[j]] + 1
    ensures s != [] ==> RankBound(rank, s[..|s| - 1]) <= b
  {
    if s == [] then 0
    else
      var prev := RankBound(rank, s[..|s| - 1]);
      var here := rank[s[|s| - 1]] + 1;
      assert forall j :: 0 <= j < |s| - 1 ==> s[..|s| - 1][j] == s[j];
      if here > prev then here else prev
  }

  /** The children of a well-ranked node, in any reordering, are well ranked and rank below it. */
  lemma ChildrenWellRanked(ch0: seq<seq<nat>>, ch: seq<seq<nat>>, rank: seq<nat>, node: nat)
    requires WellRanked(ch0, rank, node) && SameChildren(ch0, ch)
    ensures forall j :: 0 <= j < |ch[node]| ==>
      ch[node][j] < |ch| && ch[node][j] < |rank| && rank[ch[node][j]] < rank[node] && WellRanked(ch, rank, ch[node][j])
  {
    forall j | 0 <= j < |ch[node]|
      ensures ch[node][j] < |ch| && ch[node][j] < |rank| && rank[ch[node][j]] < rank[node] && WellRanked(ch, rank, ch[node][j])
    {
      assert ch[node][j] in multiset(ch0[node]);
      var i :| 0 <= i < |ch0[node]| && ch0[node][i] == ch[node][j];
      WellRankedSameChildren(ch0, ch, rank, ch0[node][i]);
    }
  }

  /** Sorting below a list is sorting below any reordering of it. */
  lemma SortedBelowPermutation<K>(c: Comparator, nodes: seq<Record<K>>, ch0: seq<seq<nat>>, ch: seq<seq<nat>>,
                                  rank: seq<nat>, list: seq<nat>, list': seq<nat>)
    requires SortedBelow(c, nodes, ch0, ch, rank, list) && multiset(list) == multiset(list')
    ensures SortedBelow(c, nodes, ch0, ch, rank, list')
  {
    forall p | 0 <= p < |ch| ensures InForest(ch0, rank, list, p) == InForest(ch0, rank, list', p) {
      InForestPermutation(ch0, rank, list, list', p);
    }
  }

  lemma TakeSnoc(s: seq<nat>, i: nat)
    requires i < |s|
    ensures s[..i + 1] == s[..i] + [s[i]]
  {
  }
}
