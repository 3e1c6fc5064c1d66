/**
 * The built-in three-way comparators of both builder variants
 * (`IDComparator`, `NameComparator`, `OrderComparator` and
 * `CompositeComparator`), and the facts about them that make sorting
 * with them meaningful: each is a total preorder.
 */
module Comparators {
  import opened Base
  import opened TreeNodes

  /** Go's `<` on strings: bytewise lexicographic order. */
  predicate LexLess(a: seq<byte>, b: seq<byte>)
  {
    if a == [] then b != []
    else if b == [] then false
    else if a[0] != b[0] then a[0] < b[0]
    else LexLess(a[1..], b[1..])
  }

  /** Exactly one of `a < b`, `a == b`, `b < a` holds. */
  lemma {:induction false} LexLessTrichotomy(a: seq<byte>, b: seq<byte>)
    ensures a != b <==> (LexLess(a, b) || LexLess(b, a))
    ensures !(LexLess(a, b) && LexLess(b, a))
  {
    if a != [] && b != [] && a[0] == b[0] {
      LexLessTrichotomy(a[1..], b[1..]);
      assert a == [a[0]] + a[1..] && b == [b[0]] + b[1..];
    }
  }

  lemma {:induction false} LexLessTransitive(a: seq<byte>, b: seq<byte>, c: seq<byte>)
    requires LexLess(a, b) && LexLess(b, c)
    ensures LexLess(a, c)
  {
    if a != [] && b != [] && c != [] && a[0] == b[0] == c[0] {
      LexLessTransitive(a[1..], b[1..], c[1..]);
    }
  }

  /** `-1`, `0` or `1` as `x` is below, equal to or above `y`. */
  function ThreeWay(x: int, y: int): int
  {
    if x < y then -1 else if x > y then 1 else 0
  }

  /** A comparator a builder can be configured with. */
  datatype Comparator =
    | ById                           // IDComparator: ascending GetID()
    | ByName                         // NameComparator: ascending GetName()
    | ByOrder                        // OrderComparator: ascending GetOrder()
    | Composite(parts: seq<Comparator>)  // CompositeComparator: lexicographic over parts

  /** The first nonzero entry of `rs`, or 0 when there is none. */
  function FirstNonzero(rs: seq<int>): (r: int)
    ensures r == 0 <==> forall i :: 0 <= i < |rs| ==> rs[i] == 0
    ensures r != 0 ==> exists k :: 0 <= k < |rs| && rs[k] == r && forall j :: 0 <= j < k ==> rs[j] == 0
  {
    if rs == [] then 0
    else if rs[0] != 0 then rs[0]
    else
      var r := FirstNonzero(rs[1..]);
      assert r != 0 ==> rs[1..] == rs[1..] && exists k :: 1 <= k < |rs| && rs[k] == r && forall j :: 1 <= j < k ==> rs[j] == 0;
      r
  }

  /** `Compare(a, b)` of the comparator `c`. */
  function Compare<K>(c: Comparator, a: Record<K>, b: Record<K>): (r: int)
    ensures r == -1 || r == 0 || r == 1
    decreases c
  {
    match c
    case ById => ThreeWay(a.id, b.id)
    case ByName => if LexLess(a.name, b.name) then -1 else if LexLess(b.name, a.name) then 1 else 0
    case ByOrder => ThreeWay(a.order, b.order)
    case Composite(parts) =>
      var rs := seq(|parts|, i requires 0 <= i < |parts| => Compare(parts[i], a, b));
      assert forall i :: 0 <= i < |rs| ==> rs[i] == Compare(parts[i], a, b);
      FirstNonzero(rs)
  }

  /** The single-field comparators order by `<` and `>` on their field. */
  lemma FieldComparators<K>(a: Record<K>, b: Record<K>)
    ensures Compare(ById, a, b) < 0 <==> a.id < b.id
    ensures Compare(ById, a, b) == 0 <==> a.id == b.id
    ensures Compare(ByOrder, a, b) < 0 <==> a.order < b.order
    ensures Compare(ByOrder, a, b) == 0 <==> a.order == b.order
    ensures Compare(ByName, a, b) < 0 <==> LexLess(a.name, b.name)
    ensures Compare(ByName, a, b) == 0 <==> a.name == b.name
    ensures Compare(ByName, a, b) > 0 <==> LexLess(b.name, a.name)
  {
    LexLessTrichotomy(a.name, b.name);
  }

  /** A composite returns the first nonzero component result, or 0 when all components agree. */
  lemma CompositeIsLexicographic<K>(parts: seq<Comparator>, a: Record<K>, b: Record<K>)
    ensures Compare(Composite(parts), a, b) == 0 <==> forall k :: 0 <= k < |parts| ==> Compare(parts[k], a, b) == 0
    ensures Compare(Composite(parts), a, b) != 0 ==>
      exists k :: 0 <= k < |parts| && Compare(Composite(parts), a, b) == Compare(parts[k], a, b) &&
        forall j :: 0 <= j < k ==> Compare(parts[j], a, b) == 0
  {
    var rs := seq(|parts|, i requires 0 <= i < |parts| => Compare(parts[i], a, b));
    assert forall k :: 0 <= k < |parts| ==> rs[k] == Compare(parts[k], a, b);
    assert Compare(Composite(parts), a, b) == FirstNonzero(rs);
  }

  /** Negating every entry negates the first nonzero one. */
  lemma {:induction false} FirstNonzeroNegated(rs: seq<int>, ss: seq<int>)
    requires |rs| == |ss| && forall i :: 0 <= i < |rs| ==> ss[i] == -rs[i]
    ensures FirstNonzero(ss) == -FirstNonzero(rs)
  {
    if rs != [] {
      FirstNonzeroNegated(rs[1..], ss[1..]);
    }
  }

  /** Swapping the operands negates the result. */
  lemma {:induction false} CompareFlip<K>(c: Comparator, a: Record<K>, b: Record<K>)
    ensures Compare(c, b, a) == -Compare(c, a, b)
    decreases c
  {
    match c
    case ByName => LexLessTrichotomy(a.name, b.name);
    case Composite(parts) =>
      var ab := seq(|parts|, i requires 0 <= i < |parts| => Compare(parts[i], a, b));
      var ba := seq(|parts|, i requires 0 <= i < |parts| => Compare(parts[i], b, a));
      forall i | 0 <= i < |parts| ensures ba[i] == -ab[i] {
        CompareFlip(parts[i], a, b);
      }
      FirstNonzeroNegated(ab, ba);
      assert Compare(c, a, b) == FirstNonzero(ab);
      assert Compare(c, b, a) == FirstNonzero(ba);
    case _ =>
  }

  /** Every record compares equal to itself. */
  lemma CompareReflexive<K>(c: Comparator, a: Record<K>)
    ensures Compare(c, a, a) == 0
  {
    CompareFlip(c, a, a);
  }

  /** The per-component facts a lexicographic combination needs at one position. */
  ghost predicate ChainsAt(ab: int, bd: int, ad: int)
  {
    && (ab <= 0 && bd <= 0 ==> ad <= 0)
    && (ab < 0 && bd <= 0 ==> ad < 0)
    && (ab <= 0 && bd < 0 ==> ad < 0)
    && (ab == 0 && bd == 0 ==> ad == 0)
  }

  lemma {:induction false} FirstNonzeroTransitive(ab: seq<int>, bd: seq<int>, ad: seq<int>)
    requires |ab| == |bd| == |ad|
    requires forall i :: 0 <= i < |ab| ==> ChainsAt(ab[i], bd[i], ad[i])
    ensures FirstNonzero(ab) <= 0 && FirstNonzero(bd) <= 0 ==> FirstNonzero(ad) <= 0
  {
    if ab != [] {
      assert ChainsAt(ab[0], bd[0], ad[0]);
      if ab[0] == 0 && bd[0] == 0 {
        FirstNonzeroTransitive(ab[1..], bd[1..], ad[1..]);
      }
    }
  }

  /** `Compare(c, ., .) <= 0` is transitive: every comparator is a total preorder. */
  lemma {:induction false} CompareTransitive<K>(c: Comparator, a: Record<K>, b: Record<K>, d: Record<K>)
    ensures Compare(c, a, b) <= 0 && Compare(c, b, d) <= 0 ==> Compare(c, a, d) <= 0
    decreases c, 1
  {
    match c
    case ByName =>
      LexLessTrichotomy(a.name, b.name);
      LexLessTrichotomy(b.name, d.name);
      LexLessTrichotomy(a.name, d.name);
      if LexLess(a.name, b.name) && LexLess(b.name, d.name) {
        LexLessTransitive(a.name, b.name, d.name);
      }
    case Composite(parts) =>
      var ab := seq(|parts|, i requires 0 <= i < |parts| => Compare(parts[i], a, b));
      var bd := seq(|parts|, i requires 0 <= i < |parts| => Compare(parts[i], b, d));
      var ad := seq(|parts|, i requires 0 <= i < |parts| => Compare(parts[i], a, d));
      forall i | 0 <= i < |parts| ensures ChainsAt(ab[i], bd[i], ad[i]) {
        ComponentChains(parts[i], a, b, d);
      }
      FirstNonzeroTransitive(ab, bd, ad);
      assert Compare(c, a, b) == FirstNonzero(ab);
      assert Compare(c, b, d) == FirstNonzero(bd);
      assert Compare(c, a, d) == FirstNonzero(ad);
    case _ =>
  }

  /** The strict and equality forms of transitivity, from the weak form and `CompareFlip`. */
  lemma {:induction false} ComponentChains<K>(c: Comparator, a: Record<K>, b: Record<K>, d: Record<K>)
    ensures ChainsAt(Compare(c, a, b), Compare(c, b, d), Compare(c, a, d))
    decreases c, 2
  {
    CompareTransitive(c, a, b, d);
    CompareTransitive(c, b, d, a);
    CompareTransitive(c, d, a, b);
    CompareTransitive(c, d, b, a);
    CompareFlip(c, a, b);
    CompareFlip(c, b, d);
    CompareFlip(c, a, d);
  }
}
