/**
 * `check_repeats` of src/d2draftnet/view_match_data.py: the number of rows
 * of a stored table whose identifier already appeared in an earlier row
 * (pandas `duplicated()` marks exactly those rows; `.sum()` counts them).
 */
module ViewMatchData {
  import opened Dedup

  /** `df['id'].duplicated().sum()` */
  function CheckRepeats<R, K(==)>(df: seq<R>, key: R -> K): nat
    decreases |df|
  {
    if |df| == 0 then 0
    else
      var init := df[..|df| - 1];
      CheckRepeats(init, key) + (if key(df[|df| - 1]) in Keys(init, key) then 1 else 0)
  }

  /** The rows of `df` that `duplicated()` marks: those that are not the first row of their identifier. */
  ghost function DuplicatedRows<R, K>(df: seq<R>, key: R -> K): set<int> {
    set j | 0 <= j < |df| && !IsFirst(df, key, j)
  }

  /** check_repeats counts exactly the rows whose identifier appeared in an earlier row. */
  lemma {:induction false} CheckRepeatsCountsDuplicated<R, K>(df: seq<R>, key: R -> K)
    ensures CheckRepeats(df, key) == |DuplicatedRows(df, key)|
    decreases |df|
  {
    if |df| > 0 {
      var n := |df| - 1;
      CheckRepeatsCountsDuplicated(df[..n], key);
      DuplicatedRowsSnoc(df, key);
    }
  }

  /** Appending a row adds its index to the duplicated rows exactly when its identifier was seen before. */
  lemma DuplicatedRowsSnoc<R, K>(df: seq<R>, key: R -> K)
    requires |df| > 0
    ensures var n := |df| - 1;
            |DuplicatedRows(df, key)| ==
            |DuplicatedRows(df[..n], key)| + if key(df[n]) in Keys(df[..n], key) then 1 else 0
  {
    var n := |df| - 1;
    var before := DuplicatedRows(df[..n], key);
    DuplicatedRowsSplit(df, key);
    IsFirstLast(df, key);
    assert n !in before;
    if !IsFirst(df, key, n) {
      assert |before + {n}| == |before| + 1;
    }
  }

  /** The duplicated rows of `df` are those of its prefix, plus the last index when that row is not first. */
  lemma DuplicatedRowsSplit<R, K>(df: seq<R>, key: R -> K)
    requires |df| > 0
    ensures var n := |df| - 1;
            DuplicatedRows(df, key) ==
            DuplicatedRows(df[..n], key) + if IsFirst(df, key, n) then {} else {n}
  {
    var n := |df| - 1;
    var before := DuplicatedRows(df[..n], key);
    var rhs := before + if IsFirst(df, key, n) then {} else {n};
    forall j | 0 <= j < n ensures j in DuplicatedRows(df, key) <==> j in before {
      IsFirstPrefix(df, key, j);
    }
    forall j ensures j in DuplicatedRows(df, key) <==> j in rhs {
      if 0 <= j < n {
        assert j in DuplicatedRows(df, key) <==> j in before;
      }
    }
  }

  /** Every row is either kept by drop_duplicates or counted by check_repeats. */
  lemma {:induction false} CheckRepeatsPlusKept<R, K>(df: seq<R>, key: R -> K)
    ensures CheckRepeats(df, key) + |KeepFirst(df, key)| == |df|
    decreases |df|
  {
    if |df| > 0 {
      CheckRepeatsPlusKept(df[..|df| - 1], key);
    }
  }

  /** check_repeats is the number of rows minus the number of distinct identifiers. */
  lemma CheckRepeatsIsRowsMinusDistinct<R, K>(df: seq<R>, key: R -> K)
    ensures CheckRepeats(df, key) == |df| - |Keys(df, key)|
    ensures 0 <= CheckRepeats(df, key) <= |df|
  {
    CheckRepeatsPlusKept(df, key);
    KeepFirstCount(df, key);
  }

  /** check_repeats reports 0 exactly when every identifier is unique. */
  lemma CheckRepeatsZeroIffUnique<R, K>(df: seq<R>, key: R -> K)
    ensures CheckRepeats(df, key) == 0 <==> Unique(df, key)
  {
    CheckRepeatsCountsDuplicated(df, key);
    if CheckRepeats(df, key) == 0 {
      forall i, j | 0 <= i < j < |df| ensures key(df[i]) != key(df[j]) {
        assert j !in DuplicatedRows(df, key);
      }
    } else {
      var j :| j in DuplicatedRows(df, key);
      assert !IsFirst(df, key, j);
    }
  }
}
