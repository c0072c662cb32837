/** Sequences of pieces, and sequences without repetition. */
module Sequences {
  /** One piece after another. */
  function Concat<T>(pieces: seq<seq<T>>): seq<T> {
    if pieces == [] then [] else pieces[0] + Concat(pieces[1..])
  }

  lemma {:induction false} ConcatSnoc<T>(pieces: seq<seq<T>>, k: nat)
    requires k < |pieces|
    ensures Concat(pieces[..k + 1]) == Concat(pieces[..k]) + pieces[k]
    decreases k
  {
    if k == 0 {
      assert pieces[..1][1..] == [] && pieces[..1][0] == pieces[0];
    } else {
      ConcatSnoc(pieces[1..], k - 1);
      assert pieces[..k + 1][1..] == pieces[1..][..k] && pieces[..k][1..] == pieces[1..][..k - 1];
    }
  }

  predicate Distinct<T(==)>(s: seq<T>) {
    forall i, j :: 0 <= i < j < |s| ==> s[i] != s[j]
  }
}
