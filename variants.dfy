/**
 * The variant generator (src/variants.rs): one base value combined with each
 * modifier in turn.
 */
module Variants {

  /**
   * `generate_variants`: `f(&a, b)` for every modifier `b`, in the order of
   * `modders`. The base value `a` is only lent to `f`, so every call sees the
   * same `a`.
   */
  function GenerateVariants<A, B, C>(a: A, modders: seq<B>, f: (A, B) -> C): (r: seq<C>)
    ensures |r| == |modders|
    ensures forall i :: 0 <= i < |r| ==> r[i] == f(a, modders[i])
  {
    if modders == [] then []
    else [f(a, modders[0])] + GenerateVariants(a, modders[1..], f)
  }

  /** No modifiers, no variants. */
  lemma GenerateNone<A, B, C>(a: A, f: (A, B) -> C)
    ensures GenerateVariants(a, [], f) == []
  {
  }

  /**
   * The modifiers are processed one after another: the variants of two runs
   * of modifiers are the variants of the first followed by those of the second.
   */
  lemma {:induction false} GenerateAppend<A, B, C>(a: A, m1: seq<B>, m2: seq<B>, f: (A, B) -> C)
    ensures GenerateVariants(a, m1 + m2, f) == GenerateVariants(a, m1, f) + GenerateVariants(a, m2, f)
  {
    if m1 != [] {
      assert (m1 + m2)[1..] == m1[1..] + m2;
      GenerateAppend(a, m1[1..], m2, f);
    } else {
      assert m1 + m2 == m2;
    }
  }
}
