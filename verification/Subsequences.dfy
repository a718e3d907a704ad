/** Subsequences, by the positions their elements come from. */
module Subsequences {

  /** `at` places the elements of `a` in `b`, in order. */
  ghost predicate Embeds<T>(a: seq<T>, b: seq<T>, at: seq<nat>) {
    && |at| == |a|
    && (forall i :: 0 <= i < |at| ==> at[i] < |b| && a[i] == b[at[i]])
    && (forall i, j :: 0 <= i < j < |at| ==> at[i] < at[j])
  }

  lemma EmbedsSkip<T>(a: seq<T>, b: seq<T>, at: seq<nat>, c: T)
    requires Embeds(a, b, at)
    ensures Embeds(a, b + [c], at)
  {
  }

  lemma EmbedsTake<T>(a: seq<T>, b: seq<T>, at: seq<nat>, c: T)
    requires Embeds(a, b, at)
    ensures Embeds(a + [c], b + [c], at + [|b|])
  {
  }
}
