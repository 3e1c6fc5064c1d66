/**
 * The records a tree is built from, the key index built over them, and the
 * resolution of each record's parent key against that index. Both builder
 * variants (gtree and gutils/tree) index and resolve in the same way; they
 * differ in when child lists are reset and in what happens to orphans.
 *
 * A record is identified by its position in the input slice: the model
 * speaks of "record i" for `nodes[i]`.
 */
module TreeNodes {
  import opened Base

  /**
   * One input record: the `TreeNode` capabilities (key, parent key, root
   * test) plus the optional accessors the built-in comparators read
   * (`GetID() uint`, `GetName() string`, `GetOrder() int`).
   */
  datatype Record<K> = Record(key: K, parentKey: K, isRoot: bool, id: nat, name: seq<byte>, order: int)

  /**
   * The key -> record index (`nodeMap`), filled in input order so that a
   * later record with the same key overwrites an earlier one.
   */
  function KeyIndex<K(==)>(nodes: seq<Record<K>>): (m: map<K, nat>)
    ensures forall i :: 0 <= i < |nodes| ==> nodes[i].key in m
    ensures forall k :: k in m ==> m[k] < |nodes| && nodes[m[k]].key == k
    ensures forall k, j :: k in m && m[k] < j < |nodes| ==> nodes[j].key != k
  {
    if nodes == [] then map[]
    else
      var last := |nodes| - 1;
      IndexExtend(nodes, KeyIndex(nodes[..last]));
      KeyIndex(nodes[..last])[nodes[last].key := last]
  }

  /** Indexing the last record on top of an index of the others gives an index of all of them. */
  lemma IndexExtend<K>(nodes: seq<Record<K>>, m: map<K, nat>)
    requires nodes != []
    requires var prev := nodes[..|nodes| - 1];
      && (forall i :: 0 <= i < |prev| ==> prev[i].key in m)
      && (forall k :: k in m ==> m[k] < |prev| && prev[m[k]].key == k)
      && (forall k, j :: k in m && m[k] < j < |prev| ==> prev[j].key != k)
    ensures var r := m[nodes[|nodes| - 1].key := |nodes| - 1];
      && (forall i :: 0 <= i < |nodes| ==> nodes[i].key in r)
      && (forall k :: k in r ==> r[k] < |nodes| && nodes[r[k]].key == k)
      && (forall k, j :: k in r && r[k] < j < |nodes| ==> nodes[j].key != k)
  {
    var last := |nodes| - 1;
    var prev := nodes[..last];
    assert forall i :: 0 <= i < last ==> prev[i] == nodes[i];
  }

  /** Record i is not a root and its parent key is in the index. */
  predicate IsLinked<K(==)>(nodes: seq<Record<K>>, i: nat)
    requires i < |nodes|
  {
    !nodes[i].isRoot && nodes[i].parentKey in KeyIndex(nodes)
  }

  /** Record i is not a root and its parent key is missing from the index. */
  predicate IsOrphan<K(==)>(nodes: seq<Record<K>>, i: nat)
    requires i < |nodes|
  {
    !nodes[i].isRoot && nodes[i].parentKey !in KeyIndex(nodes)
  }

  /** The record the index resolves record i's parent key to. */
  function ParentOf<K(==)>(nodes: seq<Record<K>>, i: nat): (p: nat)
    requires i < |nodes| && IsLinked(nodes, i)
    ensures p < |nodes| && nodes[p].key == nodes[i].parentKey
  {
    KeyIndex(nodes)[nodes[i].parentKey]
  }

  /** Which records an index list collects. */
  datatype Selector =
    | ChildrenOf(parent: nat)      // records whose parent key resolves to `parent`
    | Roots(collectOrphans: bool)  // root records, plus orphans when they are collected
    | Orphans                      // records whose parent key does not resolve

  predicate Selected<K(==)>(nodes: seq<Record<K>>, sel: Selector, i: nat)
    requires i < |nodes|
  {
    match sel
    case ChildrenOf(p) => IsLinked(nodes, i) && ParentOf(nodes, i) == p
    case Roots(collect) => nodes[i].isRoot || (collect && IsOrphan(nodes, i))
    case Orphans => IsOrphan(nodes, i)
  }

  /**
   * The positions in [lo, hi) that `sel` collects, in input order: what a
   * loop over the input that appends each selected record produces.
   */
  function Select<K(==)>(nodes: seq<Record<K>>, sel: Selector, lo: nat, hi: nat): (r: seq<nat>)
    requires lo <= hi <= |nodes|
    ensures forall x :: x in r <==> lo <= x < hi && Selected(nodes, sel, x)
    ensures forall a, b :: 0 <= a < b < |r| ==> r[a] < r[b]
    decreases hi - lo
  {
    if lo == hi then []
    else
      var prev := Select(nodes, sel, lo, hi - 1);
      if Selected(nodes, sel, hi - 1) then
        forall a | 0 <= a < |prev| ensures prev[a] < hi - 1 {
          assert prev[a] in prev;
        }
        prev + [hi - 1]
      else prev
  }

  /** The (node key, parent key) pairs the error handler receives for the given records. */
  function Reports<K(==)>(nodes: seq<Record<K>>, idx: seq<nat>): (r: seq<(K, K)>)
    requires forall j :: 0 <= j < |idx| ==> idx[j] < |nodes|
    ensures |r| == |idx|
    ensures forall j :: 0 <= j < |idx| ==> r[j] == (nodes[idx[j]].key, nodes[idx[j]].parentKey)
  {
    seq(|idx|, j requires 0 <= j < |idx| => (nodes[idx[j]].key, nodes[idx[j]].parentKey))
  }

  /** Reporting one more record appends its pair. */
  lemma ReportsSnoc<K>(nodes: seq<Record<K>>, idx: seq<nat>, i: nat)
    requires forall j :: 0 <= j < |idx| ==> idx[j] < |nodes|
    requires i < |nodes|
    ensures Reports(nodes, idx + [i]) == Reports(nodes, idx) + [(nodes[i].key, nodes[i].parentKey)]
  {
  }

  /** Indexing one more record overwrites its key's entry. */
  lemma KeyIndexSnoc<K>(nodes: seq<Record<K>>, i: nat)
    requires i < |nodes|
    ensures KeyIndex(nodes[..i + 1]) == KeyIndex(nodes[..i])[nodes[i].key := i]
  {
    assert nodes[..i + 1][..i] == nodes[..i];
  }
}
