/**
 * `remove_repeats` of d2draftnet/remove_repeats.py: drop the rows whose
 * identifier repeats an earlier row's (in place, keep="first"), report how
 * many were removed, and write the table back only when the operator confirms.
 */
module RemoveRepeats {
  import opened Common
  import opened Dedup
  import opened ViewMatchData

  /**
   * The stored table is `df`; `confirm` is the operator's answer to the
   * prompt. Returns the deduplicated table, `N_total`, `N_repeats` and the
   * table written back (None when the operator declines).
   */
  method RemoveRepeats<R, K(==)>(df: seq<R>, key: R -> K, confirm: bool)
    returns (kept: seq<R>, nTotal: int, nRepeats: int, saved: Option<seq<R>>)
    ensures kept == KeepFirst(df, key)
    ensures Unique(kept, key) && Keys(kept, key) == Keys(df, key)
    ensures nTotal == |df| && nRepeats == nTotal - |kept|
    ensures nRepeats == CheckRepeats(df, key)
    ensures 0 <= nRepeats == |df| - |Keys(df, key)|
    ensures saved == if confirm then Some(kept) else None
  {
    nTotal := |df|;
    kept := [];
    var seen: set<K> := {};
    var i := 0;
    while i < |df|
      invariant 0 <= i <= |df|
      invariant kept == KeepFirst(df[..i], key)
      invariant seen == Keys(df[..i], key)
    {
      assert df[..i + 1][..i] == df[..i];
      var id := key(df[i]);
      if id !in seen {
        kept := kept + [df[i]];
        seen := seen + {id};
      }
      i := i + 1;
    }
    assert df[..i] == df;
    nRepeats := nTotal - |kept|;
    KeepFirstUnique(df, key);
    KeepFirstKeys(df, key);
    CheckRepeatsPlusKept(df, key);
    CheckRepeatsIsRowsMinusDistinct(df, key);
    saved := if confirm then Some(kept) else None;
  }

  /** Running remove_repeats on its own output removes 0 entries. */
  lemma RemoveRepeatsIdempotent<R, K>(df: seq<R>, key: R -> K)
    ensures CheckRepeats(KeepFirst(df, key), key) == 0
  {
    KeepFirstUnique(df, key);
    CheckRepeatsZeroIffUnique(KeepFirst(df, key), key);
  }
}
