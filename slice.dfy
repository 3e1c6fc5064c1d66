/**
 * The generic slice helpers of gutils/slice.go: difference, de-duplication,
 * membership and fixed-size grouping. Slices are sequences; the Go maps
 * used as sets are Dafny sets. Each helper is a loop proved against a
 * recursive specification function, whose properties are lemmas.
 */
module Slices {
  import opened Base
  import opened Arith

  // ---------------------------------------------------------------------
  // Subsequences.
  // ---------------------------------------------------------------------

  /** r can be obtained from s by deleting elements, keeping the order of the rest. */
  ghost predicate IsSubsequence<T>(r: seq<T>, s: seq<T>)
    decreases |s|
  {
    r == [] ||
    (s != [] &&
     ((r[|r| - 1] == s[|s| - 1] && IsSubsequence(r[..|r| - 1], s[..|s| - 1])) ||
      IsSubsequence(r, s[..|s| - 1])))
  }

  // ---------------------------------------------------------------------
  // SliceDiff.
  // ---------------------------------------------------------------------

  /** The elements of a that are not in b, in order and with their multiplicity. */
  function Diff<T(==,!new)>(a: seq<T>, b: seq<T>): (r: seq<T>)
    ensures forall x :: x in r <==> x in a && x !in b
    ensures forall x :: multiset(r)[x] == if x in b then 0 else multiset(a)[x]
  {
    if a == [] then []
    else
      var last := a[|a| - 1];
      assert a == a[..|a| - 1] + [last];
      Diff(a[..|a| - 1], b) + if last in b then [] else [last]
  }

  /** The difference keeps the order of a. */
  lemma {:induction false} DiffIsSubsequence<T(!new)>(a: seq<T>, b: seq<T>)
    ensures IsSubsequence(Diff(a, b), a)
  {
    if a != [] {
      var prev := a[..|a| - 1];
      DiffIsSubsequence(prev, b);
      if a[|a| - 1] in b {
        assert Diff(a, b) == Diff(prev, b);
      } else {
        assert Diff(a, b)[..|Diff(a, b)| - 1] == Diff(prev, b);
      }
    }
  }

  /** `SliceDiff`: collect b into a set, then keep each element of a that is not in it. */
  method SliceDiff<T(==,!new)>(a: seq<T>, b: seq<T>) returns (diff: seq<T>)
    ensures diff == Diff(a, b)
  {
    var setB: set<T> := {};
    for i := 0 to |b|
      invariant forall x :: x in setB <==> x in b[..i]
    {
      assert b[..i + 1] == b[..i] + [b[i]];
      setB := setB + {b[i]};
    }
    assert b[..|b|] == b;
    diff := [];
    for i := 0 to |a|
      invariant diff == Diff(a[..i], b)
    {
      assert a[..i + 1][..i] == a[..i];
      if a[i] !in setB {
        diff := diff + [a[i]];
      }
    }
    assert a[..|a|] == a;
  }

  // ---------------------------------------------------------------------
  // SliceDuplicate.
  // ---------------------------------------------------------------------

  /** The first occurrence of each element of s, in the order of those occurrences. */
  function Dedup<T(==,!new)>(s: seq<T>): (r: seq<T>)
    ensures forall x :: x in r <==> x in s
    ensures forall i, j :: 0 <= i < j < |r| ==> r[i] != r[j]
  {
    if s == [] then []
    else
      var prev := Dedup(s[..|s| - 1]);
      var last := s[|s| - 1];
      assert s == s[..|s| - 1] + [last];
      if last in prev then prev else prev + [last]
  }

  /** The position of the first occurrence of x in s. */
  function FirstIndex<T(==)>(s: seq<T>, x: T): (i: nat)
    requires x in s
    ensures i < |s| && s[i] == x
    ensures forall j :: 0 <= j < i ==> s[j] != x
  {
    if s[0] == x then 0 else FirstIndex(s[1..], x) + 1
  }

  /** De-duplication keeps the order of s. */
  lemma {:induction false} DedupIsSubsequence<T(!new)>(s: seq<T>)
    ensures IsSubsequence(Dedup(s), s)
  {
    if s != [] {
      var prev := s[..|s| - 1];
      DedupIsSubsequence(prev);
      if s[|s| - 1] !in Dedup(prev) {
        assert Dedup(s)[..|Dedup(s)| - 1] == Dedup(prev);
      }
    }
  }

  /** De-duplication lists elements in the order of their first occurrence in s. */
  lemma {:induction false} DedupFirstOccurrenceOrder<T(!new)>(s: seq<T>)
    ensures forall i, j :: 0 <= i < j < |Dedup(s)| ==> FirstIndex(s, Dedup(s)[i]) < FirstIndex(s, Dedup(s)[j])
  {
    if s != [] {
      var prev := s[..|s| - 1];
      var last := s[|s| - 1];
      DedupFirstOccurrenceOrder(prev);
      forall x | x in prev ensures FirstIndex(s, x) == FirstIndex(prev, x) {
        var a, b := FirstIndex(prev, x), FirstIndex(s, x);
        assert s[a] == x;
        assert b <= a;
        assert prev[b] == x;
      }
      var r := Dedup(s);
      if last !in prev {
        assert FirstIndex(s, last) == |s| - 1;
        forall i, j | 0 <= i < j < |r| ensures FirstIndex(s, r[i]) < FirstIndex(s, r[j]) {
          assert r[i] in Dedup(prev);
          if j < |r| - 1 {
            assert r[j] in Dedup(prev);
          }
        }
      } else {
        forall i, j | 0 <= i < j < |r| ensures FirstIndex(s, r[i]) < FirstIndex(s, r[j]) {
          assert r[i] in Dedup(prev) && r[j] in Dedup(prev);
        }
      }
    }
  }

  /** `SliceDuplicate`: keep each element the first time it is seen, remembering seen elements in a set. */
  method SliceDuplicate<T(==,!new)>(s: seq<T>) returns (result: seq<T>)
    ensures result == Dedup(s)
  {
    var seen: set<T> := {};
    result := [];
    for i := 0 to |s|
      invariant result == Dedup(s[..i])
      invariant forall x :: x in seen <==> x in s[..i]
    {
      assert s[..i + 1][..i] == s[..i];
      assert s[..i + 1] == s[..i] + [s[i]];
      if s[i] !in seen {
        seen := seen + {s[i]};
        result := result + [s[i]];
      }
    }
    assert s[..|s|] == s;
  }

  // ---------------------------------------------------------------------
  // SliceContain.
  // ---------------------------------------------------------------------

  /** `SliceContain`: scan for an element equal to the target. */
  method SliceContain<T(==)>(slice: seq<T>, element: T) returns (found: bool)
    ensures found <==> element in slice
  {
    for i := 0 to |slice|
      invariant element !in slice[..i]
    {
      if slice[i] == element {
        return true;
      }
      assert slice[..i + 1] == slice[..i] + [slice[i]];
    }
    assert slice[..|slice|] == slice;
    return false;
  }

  // ---------------------------------------------------------------------
  // SliceGroup.
  // ---------------------------------------------------------------------

  /** The concatenation of a list of groups. */
  function Flatten<T>(groups: seq<seq<T>>): seq<T>
  {
    if groups == [] then [] else groups[0] + Flatten(groups[1..])
  }

  /** The number of groups of size d needed to hold n elements: the least q with n <= q * d. */
  function CeilDiv(n: nat, d: nat): (q: nat)
    requires d > 0
    ensures n <= q * d
    ensures q > 0 ==> (q - 1) * d < n
  {
    if n == 0 then 0 else (n - 1) / d + 1
  }

  /** s cut into consecutive groups of `size` elements, the last holding what remains. */
  function Chunks<T>(s: seq<T>, size: nat): seq<seq<T>>
    requires size > 0
    decreases |s|
  {
    if s == [] then []
    else if |s| <= size then [s]
    else [s[..size]] + Chunks(s[size..], size)
  }

  /** The groups concatenate back to the input; each holds 1..size elements and all but the last exactly size. */
  lemma {:induction false} ChunksSpec<T>(s: seq<T>, size: nat)
    requires size > 0
    ensures var r := Chunks(s, size);
      && Flatten(r) == s
      && forall k :: 0 <= k < |r| ==> 1 <= |r[k]| <= size && (k < |r| - 1 ==> |r[k]| == size)
    decreases |s|
  {
    if s == [] {
    } else if |s| <= size {
      assert Flatten([s]) == s + Flatten([]);
    } else {
      ChunksSpec(s[size..], size);
      var rest := Chunks(s[size..], size);
      assert ([s[..size]] + rest)[1..] == rest;
      assert s == s[..size] + s[size..];
      assert forall k :: 1 <= k < |rest| + 1 ==> ([s[..size]] + rest)[k] == rest[k - 1];
    }
  }

  /** Adding d elements adds one group. */
  lemma CeilDivStep(n: nat, d: nat)
    requires d > 0 && n > 0
    ensures CeilDiv(n + d, d) == CeilDiv(n, d) + 1
  {
    DivAddDivisor(n - 1, d);
  }

  /** There are ceil(|s| / size) groups. */
  lemma {:induction false} ChunksCount<T>(s: seq<T>, size: nat)
    requires size > 0
    ensures |Chunks(s, size)| == CeilDiv(|s|, size)
    decreases |s|
  {
    if s == [] {
    } else if |s| <= size {
      DivUnique(|s| - 1, size, 0, |s| - 1);
    } else {
      ChunksCount(s[size..], size);
      CeilDivStep(|s| - size, size);
    }
  }

  /** The group starting at a group boundary i, followed by the groups after it. */
  lemma ChunksFrom<T>(s: seq<T>, i: nat, size: nat)
    requires size > 0 && i < |s|
    ensures var end := if i + size > |s| then |s| else i + size;
      Chunks(s[i..], size) == [s[i..end]] + Chunks(s[end..], size)
  {
    var end := if i + size > |s| then |s| else i + size;
    if |s[i..]| > size {
      assert s[i..][..size] == s[i..end];
      assert s[i..][size..] == s[end..];
    } else {
      assert s[i..] == s[i..end];
      assert s[end..] == [];
    }
  }

  /** The groups from position i on: those of `s[i..]`, or none once i is past the end. */
  function ChunksAt<T>(s: seq<T>, i: nat, size: nat): seq<seq<T>>
    requires size > 0
  {
    if i < |s| then Chunks(s[i..], size) else []
  }

  /** `gs` are the groups before position i: followed by the groups from i on, they make up `all`. */
  ghost predicate GroupedUpTo<T>(s: seq<T>, i: nat, size: nat, gs: seq<seq<T>>, all: seq<seq<T>>)
    requires size > 0
  {
    gs + ChunksAt(s, i, size) == all
  }

  /** One iteration of the grouping loop: the group [i, end) is the next one of the result. */
  lemma ChunksAdvance<T>(s: seq<T>, i: nat, end: nat, size: nat, gs: seq<seq<T>>, all: seq<seq<T>>)
    requires size > 0 && i < |s| && end == (if i + size > |s| then |s| else i + size)
    requires GroupedUpTo(s, i, size, gs, all)
    ensures GroupedUpTo(s, i + size, size, gs + [s[i..end]], all)
  {
    ChunksFrom(s, i, size);
    assert gs + Chunks(s[i..], size) == (gs + [s[i..end]]) + Chunks(s[end..], size);
    if i + size >= |s| {
      assert s[end..] == [];
      assert Chunks(s[end..], size) == [];
    }
  }

  /**
   * The capacity `SliceGroup` reserves, computed without overflow: for a
   * non-empty slice it equals the number of groups, and no intermediate
   * value exceeds the length.
   */
  function GroupCount(length: nat, groupSize: nat): (count: nat)
    requires length > 0 && groupSize > 0
    ensures count == CeilDiv(length, groupSize)
    ensures count <= length
  {
    DivAtMost(length - 1, groupSize);
    (length - 1) / groupSize + 1
  }

  /**
   * `SliceGroup`: no groups (nil) for a size that is not positive;
   * otherwise the input cut into groups of `groupSize`, each a copy.
   */
  method SliceGroup<T>(slice: seq<T>, groupSize: int) returns (groups: Option<seq<seq<T>>>)
    ensures groupSize <= 0 <==> groups == None
    ensures groupSize > 0 ==> groups == Some(Chunks(slice, groupSize))
  {
    if groupSize <= 0 {
      return None;
    }
    var length := |slice|;
    if length == 0 {
      return Some([]);
    }
    var size: nat := groupSize;
    var groupCount := GroupCount(length, size);
    ghost var all := Chunks(slice, size);
    var gs: seq<seq<T>> := [];
    var i: nat := 0;
    assert slice[0..] == slice;
    while i < length
      invariant GroupedUpTo(slice, i, size, gs, all)
      decreases length - i
    {
      var end := i + size;
      if end > length {
        end := length;
      }
      ChunksAdvance(slice, i, end, size, gs, all);
      gs := gs + [slice[i..end]];
      i := i + size;
    }
    assert gs + [] == gs;
    ChunksCount(slice, size);
    assert |gs| == groupCount;
    return Some(gs);
  }

  // ---------------------------------------------------------------------
  // The capacity as the source computes it, in 64-bit arithmetic.
  // ---------------------------------------------------------------------

  const MaxInt64: int := 0x7fff_ffff_ffff_ffff

  /** Two's-complement wrap-around of a mathematical integer into int64. */
  function WrapInt64(x: int): (w: int)
    ensures -MaxInt64 - 1 <= w <= MaxInt64
    ensures -MaxInt64 - 1 <= x <= MaxInt64 ==> w == x
  {
    (x + MaxInt64 + 1) % (2 * (MaxInt64 + 1)) - (MaxInt64 + 1)
  }

  /** Go's integer division, which truncates toward zero. */
  function GoDiv(a: int, b: int): (q: int)
    requires b > 0
    ensures a >= 0 ==> q == a / b
  {
    if a >= 0 then a / b else -((-a) / b)
  }

  /** `(length + groupSize - 1) / groupSize` evaluated in int64, as the source does. */
  function GroupCountAsWritten(length: nat, groupSize: nat): int
    requires 0 < length <= MaxInt64 && 0 < groupSize <= MaxInt64
  {
    GoDiv(WrapInt64(WrapInt64(length + groupSize) - 1), groupSize)
  }

  /** Without overflow the source's capacity is the number of groups. */
  lemma GroupCountAsWrittenAgrees(length: nat, groupSize: nat)
    requires 0 < length <= MaxInt64 && 0 < groupSize <= MaxInt64
    requires length + groupSize - 1 <= MaxInt64
    ensures GroupCountAsWritten(length, groupSize) == GroupCount(length, groupSize)
  {
    assert WrapInt64(length + groupSize - 1) == length + groupSize - 1;
    if length + groupSize > MaxInt64 {
      assert length + groupSize == MaxInt64 + 1;
      assert WrapInt64(length + groupSize) == -MaxInt64 - 1;
      assert WrapInt64(-MaxInt64 - 2) == MaxInt64;
    }
    DivAddDivisor(length - 1, groupSize);
    assert length + groupSize - 1 == (length - 1) + groupSize;
  }

  /**
   * With two elements and the largest group size the sum wraps to the
   * most negative int64, the capacity comes out as -1, and `make` with a
   * negative capacity panics; the intended capacity is 1.
   */
  lemma GroupCountOverflowExample()
    ensures GroupCountAsWritten(2, MaxInt64) == -1
    ensures GroupCount(2, MaxInt64) == 1
  {
    assert WrapInt64(2 + MaxInt64) == -MaxInt64;
    assert WrapInt64(-MaxInt64 - 1) == -MaxInt64 - 1;
  }
}
