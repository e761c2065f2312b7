/**
 * Rust's `Ordering` and the lexicographic comparison of slices that
 * `Ord for [u8]` and `Ord for str` perform.
 */
module Lexicographic {

  datatype Ordering = Less | Equal | Greater

  /** The ordering with both sides swapped. */
  function Reverse(o: Ordering): Ordering {
    match o
    case Less => Greater
    case Equal => Equal
    case Greater => Less
  }

  /**
   * Element-by-element comparison; the first difference decides, and a
   * proper prefix is smaller than the sequence it begins.
   */
  function Cmp(a: seq<int>, b: seq<int>): Ordering
    decreases |a|
  {
    if a == [] && b == [] then Equal
    else if a == [] then Less
    else if b == [] then Greater
    else if a[0] < b[0] then Less
    else if a[0] > b[0] then Greater
    else Cmp(a[1..], b[1..])
  }

  /** The comparison reports `Equal` exactly for equal sequences. */
  lemma {:induction false} CmpEqual(a: seq<int>, b: seq<int>)
    ensures Cmp(a, b) == Equal <==> a == b
    decreases |a|
  {
    if a != [] && b != [] && a[0] == b[0] {
      CmpEqual(a[1..], b[1..]);
      assert a == [a[0]] + a[1..] && b == [b[0]] + b[1..];
    }
  }

  /** Swapping the operands reverses the result (antisymmetry, and totality of `<`). */
  lemma {:induction false} CmpAntisymmetric(a: seq<int>, b: seq<int>)
    ensures Cmp(b, a) == Reverse(Cmp(a, b))
    decreases |a|
  {
    if a != [] && b != [] && a[0] == b[0] {
      CmpAntisymmetric(a[1..], b[1..]);
    }
  }

  /** `Less` is transitive. */
  lemma {:induction false} CmpTransitive(a: seq<int>, b: seq<int>, c: seq<int>)
    requires Cmp(a, b) == Less && Cmp(b, c) == Less
    ensures Cmp(a, c) == Less
    decreases |a|
  {
    if a != [] && b != [] && c != [] && a[0] == b[0] && b[0] == c[0] {
      CmpTransitive(a[1..], b[1..], c[1..]);
    }
  }

  /** A common prefix does not change the comparison. */
  lemma {:induction false} CmpCommonPrefix(p: seq<int>, a: seq<int>, b: seq<int>)
    ensures Cmp(p + a, p + b) == Cmp(a, b)
    decreases |p|
  {
    if p == [] {
      assert p + a == a && p + b == b;
    } else {
      assert (p + a)[1..] == p[1..] + a;
      assert (p + b)[1..] == p[1..] + b;
      CmpCommonPrefix(p[1..], a, b);
    }
  }

  /** A proper prefix is smaller than every sequence it begins. */
  lemma {:induction false} CmpPrefix(p: seq<int>, a: seq<int>)
    requires a != []
    ensures Cmp(p, p + a) == Less
    decreases |p|
  {
    if p != [] {
      assert (p + a)[1..] == p[1..] + a;
      CmpPrefix(p[1..], a);
    }
  }

  /** The first position where two sequences differ decides their comparison. */
  lemma {:induction false} CmpFirstDifference(a: seq<int>, b: seq<int>, i: nat)
    requires i < |a| && i < |b| && a[i] < b[i]
    requires forall j | 0 <= j < i :: a[j] == b[j]
    ensures Cmp(a, b) == Less
    decreases i
  {
    if i > 0 {
      CmpFirstDifference(a[1..], b[1..], i - 1);
    }
  }
}
