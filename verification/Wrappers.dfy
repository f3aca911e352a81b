/** Small notions the models share. */
module Wrappers {
  datatype Option<+T> = None | Some(value: T)

  ghost predicate Distinct<T>(s: seq<T>) {
    forall i, j :: 0 <= i < j < |s| ==> s[i] != s[j]
  }

  /**
    `out` has one item for each wanted position below `n`, in increasing order, and no
    other: `picked` lists the positions, and each item fits its position.
  */
  ghost predicate Selects<T>(out: seq<T>, picked: seq<nat>, n: nat, wanted: nat -> bool, fits: (nat, T) -> bool) {
    && |out| == |picked|
    && (forall i, j :: 0 <= i < j < |picked| ==> picked[i] < picked[j])
    && (forall k :: 0 <= k < |picked| ==> picked[k] < n && wanted(picked[k]) && fits(picked[k], out[k]))
    && (forall i: nat :: i < n && wanted(i) ==> i in picked)
  }

  lemma SelectsNext<T>(out: seq<T>, picked: seq<nat>, n: nat, wanted: nat -> bool, fits: (nat, T) -> bool, more: seq<T>)
    requires Selects(out, picked, n, wanted, fits)
    requires if wanted(n) then |more| == 1 && fits(n, more[0]) else more == []
    ensures Selects(out + more, if wanted(n) then picked + [n] else picked, n + 1, wanted, fits)
  {
    if wanted(n) {
      var longer := picked + [n];
      assert longer[|picked|] == n;
      forall i: nat | i < n + 1 && wanted(i) ensures i in longer {
        if i < n { assert i in picked; }
      }
    } else {
      assert out + more == out;
    }
  }
}
