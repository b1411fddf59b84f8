/** Facts about sequences shared by the recommendation model. */
module Sequences {

  /** No element occurs twice. */
  predicate NoDuplicates<T(==)>(s: seq<T>) {
    forall i, j :: 0 <= i < j < |s| ==> s[i] != s[j]
  }

  /**
   * The distinct elements of `s`, each at the position of its first
   * appearance (what pandas' `Series.unique()` returns).
   */
  function Dedup<T(==,!new)>(s: seq<T>): (r: seq<T>)
    ensures NoDuplicates(r)
    ensures forall x :: x in r <==> x in s
    ensures |r| <= |s|
  {
    if s == [] then []
    else
      var d := Dedup(s[..|s| - 1]);
      if s[|s| - 1] in d then d else d + [s[|s| - 1]]
  }

  /**
   * Deduplicating a prefix of `s` gives a prefix of deduplicating `s`:
   * a later element never moves ahead of an earlier one. Together with
   * the membership and no-duplicates facts on Dedup this fixes the
   * first-appearance order.
   */
  lemma {:induction false} DedupOfPrefix<T(!new)>(s: seq<T>, k: nat)
    requires k <= |s|
    ensures Dedup(s[..k]) <= Dedup(s)
  {
    if k < |s| {
      var init := s[..|s| - 1];
      assert init[..k] == s[..k];
      DedupOfPrefix(init, k);
    } else {
      assert s[..k] == s;
    }
  }
}
