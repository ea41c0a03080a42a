/**
 * The bookkeeping of a loop that visits sources in order and keeps some of them: which
 * sources it kept, what it kept of each, and whether it can have skipped one.
 */
module Selection {
  import opened Common

  /**
   * The loop after `i` rounds, against the expected values `want` of the sources:
   * `kept` are the expected values of the `picked` sources, in increasing order and all
   * below `i`, and when nothing has failed (`granted`) every source below `i` that has
   * an expected value is picked.
   */
  ghost predicate Filled<T>(want: seq<Option<T>>, i: int, kept: seq<T>, picked: seq<int>, granted: bool)
  {
    0 <= i <= |want| && |picked| == |kept| &&
    (forall a, b :: 0 <= a < b < |picked| ==> picked[a] < picked[b]) &&
    (forall k :: 0 <= k < |picked| ==> 0 <= picked[k] < i && want[picked[k]] == Some(kept[k])) &&
    (granted ==> forall j :: 0 <= j < i && want[j].Some? ==> j in picked)
  }

  /**
   * One round: source `i` is kept as `f` when it loads, and `f` is then its expected
   * value; when nothing has failed it is kept exactly when it has one.
   */
  lemma FilledStep<T>(want: seq<Option<T>>, i: int, kept: seq<T>, picked: seq<int>,
                      granted: bool, granted': bool, f: Option<T>)
    requires 0 <= i < |want| && Filled(want, i, kept, picked, granted)
    requires f.Some? ==> want[i] == f
    requires granted' ==> granted && (want[i].Some? ==> f.Some?)
    ensures f.None? ==> Filled(want, i + 1, kept, picked, granted')
    ensures f.Some? ==> Filled(want, i + 1, kept + [f.value], picked + [i], granted')
  {
    if f.Some? {
      var kept', picked' := kept + [f.value], picked + [i];
      assert forall k :: 0 <= k < |kept| ==> kept'[k] == kept[k] && picked'[k] == picked[k];
      assert kept'[|kept|] == f.value && picked'[|kept|] == i;
    }
  }
}
