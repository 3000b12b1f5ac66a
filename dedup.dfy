/**
 * The table operations the scripts borrow from pandas, on a table modelled
 * as a sequence of rows with an identifier column given by `key`:
 *   - `set(df[column])`                                  -> Keys
 *   - `df.drop_duplicates(subset=column, keep="first")`  -> KeepFirst
 *   - `pd.concat([existing, new])` then drop_duplicates  -> Merge
 *   - `{row[column]: row for row in rows}`               -> ToDict
 */
module Dedup {
  import opened Common

  /** The identifiers present in a table. */
  function Keys<R, K(==)>(s: seq<R>, key: R -> K): set<K>
    decreases |s|
  {
    if |s| == 0 then {} else Keys(s[..|s| - 1], key) + {key(s[|s| - 1])}
  }

  /** No two rows share an identifier. */
  ghost predicate Unique<R, K>(s: seq<R>, key: R -> K) {
    forall i, j :: 0 <= i < j < |s| ==> key(s[i]) != key(s[j])
  }

  /** Row `j` is the first row carrying its identifier. */
  ghost predicate IsFirst<R, K>(s: seq<R>, key: R -> K, j: int)
    requires 0 <= j < |s|
  {
    forall i :: 0 <= i < j ==> key(s[i]) != key(s[j])
  }

  /** Row `j` is the last row carrying its identifier. */
  ghost predicate IsLast<R, K>(s: seq<R>, key: R -> K, j: int)
    requires 0 <= j < |s|
  {
    forall i :: j < i < |s| ==> key(s[i]) != key(s[j])
  }

  /** `drop_duplicates(keep="first")`: a row survives iff no earlier row has its identifier. */
  function KeepFirst<R, K(==)>(s: seq<R>, key: R -> K): seq<R>
    decreases |s|
  {
    if |s| == 0 then []
    else
      var init := s[..|s| - 1];
      if key(s[|s| - 1]) in Keys(init, key) then KeepFirst(init, key)
      else KeepFirst(init, key) + [s[|s| - 1]]
  }

  /** The positions of the rows that KeepFirst keeps (a witness that it is a subsequence). */
  ghost function FirstIndices<R, K>(s: seq<R>, key: R -> K): seq<int>
    decreases |s|
  {
    if |s| == 0 then []
    else
      var init := s[..|s| - 1];
      if key(s[|s| - 1]) in Keys(init, key) then FirstIndices(init, key)
      else FirstIndices(init, key) + [|s| - 1]
  }

  /** `pd.concat([existing, new], ignore_index=True).drop_duplicates(subset=[column])` */
  function Merge<R, K(==)>(existing: seq<R>, added: seq<R>, key: R -> K): seq<R> {
    KeepFirst(existing + added, key)
  }

  /** `if records: save(merge) else: nothing is written` (collect_data0 and collect_data2). */
  function MergeIfAny<R, K(==)>(existing: seq<R>, added: seq<R>, key: R -> K): Option<seq<R>> {
    if |added| == 0 then None else Some(Merge(existing, added, key))
  }

  /** A dict comprehension keyed by the identifier: a later row overwrites an earlier one. */
  function ToDict<R, K(==)>(s: seq<R>, key: R -> K): (m: map<K, R>)
    ensures m.Keys == Keys(s, key)
    ensures forall i :: 0 <= i < |s| && IsLast(s, key, i) ==> key(s[i]) in m && m[key(s[i])] == s[i]
    decreases |s|
  {
    if |s| == 0 then map[]
    else
      var m := ToDict(s[..|s| - 1], key);
      m[key(s[|s| - 1]) := s[|s| - 1]]
  }

  // ---------------------------------------------------------------------------
  // Keys

  lemma {:induction false} KeysOf<R, K>(s: seq<R>, key: R -> K, i: int)
    requires 0 <= i < |s|
    ensures key(s[i]) in Keys(s, key)
    decreases |s|
  {
    if i < |s| - 1 {
      KeysOf(s[..|s| - 1], key, i);
    }
  }

  lemma {:induction false} KeysWitness<R, K>(s: seq<R>, key: R -> K, k: K) returns (i: int)
    requires k in Keys(s, key)
    ensures 0 <= i < |s| && key(s[i]) == k
    decreases |s|
  {
    if key(s[|s| - 1]) == k {
      i := |s| - 1;
    } else {
      i := KeysWitness(s[..|s| - 1], key, k);
    }
  }

  /** An identifier is in Keys exactly when some row carries it. */
  lemma KeysIff<R, K>(s: seq<R>, key: R -> K, k: K)
    ensures k in Keys(s, key) <==> exists i :: 0 <= i < |s| && key(s[i]) == k
  {
    if k in Keys(s, key) {
      var i := KeysWitness(s, key, k);
    }
    forall i | 0 <= i < |s| && key(s[i]) == k ensures k in Keys(s, key) {
      KeysOf(s, key, i);
    }
  }

  lemma {:induction false} KeysAppend<R, K>(a: seq<R>, b: seq<R>, key: R -> K)
    ensures Keys(a + b, key) == Keys(a, key) + Keys(b, key)
    decreases |b|
  {
    if |b| > 0 {
      assert (a + b)[..|a + b| - 1] == a + b[..|b| - 1];
      KeysAppend(a, b[..|b| - 1], key);
    } else {
      assert a + b == a;
    }
  }

  /** The identifiers of a table without repeats are as many as its rows. */
  lemma {:induction false} UniqueKeysCount<R, K>(s: seq<R>, key: R -> K)
    requires Unique(s, key)
    ensures |Keys(s, key)| == |s|
    decreases |s|
  {
    if |s| > 0 {
      var init := s[..|s| - 1];
      UniqueKeysCount(init, key);
      KeysIff(init, key, key(s[|s| - 1]));
    }
  }

  lemma UniqueSnoc<R, K>(s: seq<R>, r: R, key: R -> K)
    requires Unique(s, key) && key(r) !in Keys(s, key)
    ensures Unique(s + [r], key)
  {
    forall i | 0 <= i < |s| ensures key(s[i]) != key(r) {
      KeysOf(s, key, i);
    }
  }

  // ---------------------------------------------------------------------------
  // KeepFirst

  /** Dropping duplicates loses no identifier. */
  lemma {:induction false} KeepFirstKeys<R, K>(s: seq<R>, key: R -> K)
    ensures Keys(KeepFirst(s, key), key) == Keys(s, key)
    decreases |s|
  {
    if |s| > 0 {
      var init := s[..|s| - 1];
      KeepFirstKeys(init, key);
    }
  }

  /** After drop_duplicates all identifiers are unique. */
  lemma {:induction false} KeepFirstUnique<R, K>(s: seq<R>, key: R -> K)
    ensures Unique(KeepFirst(s, key), key)
    decreases |s|
  {
    if |s| > 0 {
      var init := s[..|s| - 1];
      KeepFirstUnique(init, key);
      KeepFirstKeys(init, key);
      if key(s[|s| - 1]) !in Keys(init, key) {
        UniqueSnoc(KeepFirst(init, key), s[|s| - 1], key);
      }
    }
  }

  /**
   * KeepFirst is the subsequence of the table made of the first row of every
   * identifier, in the table's order: FirstIndices are increasing positions,
   * the kept rows are the rows at those positions, and a position is listed
   * exactly when it is the first occurrence of its identifier.
   */
  lemma {:induction false} KeepFirstIsFirstOccurrences<R, K>(s: seq<R>, key: R -> K)
    ensures |FirstIndices(s, key)| == |KeepFirst(s, key)|
    ensures forall k :: 0 <= k < |FirstIndices(s, key)| ==>
              0 <= FirstIndices(s, key)[k] < |s| && KeepFirst(s, key)[k] == s[FirstIndices(s, key)[k]]
    ensures forall k1, k2 :: 0 <= k1 < k2 < |FirstIndices(s, key)| ==>
              FirstIndices(s, key)[k1] < FirstIndices(s, key)[k2]
    ensures forall j :: 0 <= j < |s| ==> (j in FirstIndices(s, key) <==> IsFirst(s, key, j))
    decreases |s|
  {
    if |s| > 0 {
      var n := |s| - 1;
      KeepFirstIsFirstOccurrences(s[..n], key);
      forall j | 0 <= j < n ensures IsFirst(s[..n], key, j) <==> IsFirst(s, key, j) {
        IsFirstPrefix(s, key, j);
      }
      IsFirstLast(s, key);
    }
  }

  /** The last row is the first of its identifier exactly when no earlier row has that identifier. */
  lemma IsFirstLast<R, K>(s: seq<R>, key: R -> K)
    requires |s| > 0
    ensures var n := |s| - 1;
            IsFirst(s, key, n) <==> key(s[n]) !in Keys(s[..n], key)
  {
    var n := |s| - 1;
    var init := s[..n];
    KeysIff(init, key, key(s[n]));
    if key(s[n]) in Keys(init, key) {
      var i :| 0 <= i < n && key(init[i]) == key(s[n]);
      assert !IsFirst(s, key, n);
    }
  }

  /** Whether a row is the first of its identifier does not depend on the rows after it. */
  lemma IsFirstPrefix<R, K>(s: seq<R>, key: R -> K, j: int)
    requires 0 <= j < |s| - 1
    ensures IsFirst(s[..|s| - 1], key, j) <==> IsFirst(s, key, j)
  {
    assert forall i :: 0 <= i <= j ==> s[..|s| - 1][i] == s[i];
  }

  /** A table that already has unique identifiers is left unchanged. */
  lemma {:induction false} KeepFirstOfUnique<R, K>(s: seq<R>, key: R -> K)
    requires Unique(s, key)
    ensures KeepFirst(s, key) == s
    decreases |s|
  {
    if |s| > 0 {
      var init := s[..|s| - 1];
      assert Unique(init, key);
      KeepFirstOfUnique(init, key);
      KeysIff(init, key, key(s[|s| - 1]));
      assert s == init + [s[|s| - 1]];
    }
  }

  /** drop_duplicates is idempotent: a second pass removes nothing. */
  lemma KeepFirstIdempotent<R, K>(s: seq<R>, key: R -> K)
    ensures KeepFirst(KeepFirst(s, key), key) == KeepFirst(s, key)
  {
    KeepFirstUnique(s, key);
    KeepFirstOfUnique(KeepFirst(s, key), key);
  }

  /** drop_duplicates keeps one row per distinct identifier. */
  lemma KeepFirstCount<R, K>(s: seq<R>, key: R -> K)
    ensures |KeepFirst(s, key)| == |Keys(s, key)| <= |s|
  {
    KeepFirstUnique(s, key);
    UniqueKeysCount(KeepFirst(s, key), key);
    KeepFirstKeys(s, key);
    KeepFirstShorter(s, key);
  }

  lemma {:induction false} KeepFirstShorter<R, K>(s: seq<R>, key: R -> K)
    ensures |KeepFirst(s, key)| <= |s|
    decreases |s|
  {
    if |s| > 0 {
      KeepFirstShorter(s[..|s| - 1], key);
    }
  }

  /** Rows appended after a table are dropped when their identifiers are already in it. */
  lemma {:induction false} KeepFirstAbsorbs<R, K>(a: seq<R>, b: seq<R>, key: R -> K)
    requires Keys(b, key) <= Keys(a, key)
    ensures KeepFirst(a + b, key) == KeepFirst(a, key)
    decreases |b|
  {
    if |b| == 0 {
      assert a + b == a;
    } else {
      var b' := b[..|b| - 1];
      assert (a + b)[..|a + b| - 1] == a + b';
      assert Keys(b', key) <= Keys(b, key);
      KeepFirstAbsorbs(a, b', key);
      KeysAppend(a, b', key);
    }
  }

  /** Keep-first: the surviving rows of a table come first and unchanged after appending more rows. */
  lemma {:induction false} KeepFirstPrefix<R, K>(a: seq<R>, b: seq<R>, key: R -> K)
    ensures KeepFirst(a, key) <= KeepFirst(a + b, key)
    decreases |b|
  {
    if |b| == 0 {
      assert a + b == a;
    } else {
      var b' := b[..|b| - 1];
      assert (a + b)[..|a + b| - 1] == a + b';
      KeepFirstPrefix(a, b', key);
    }
  }

  // ---------------------------------------------------------------------------
  // Merge

  /**
   * The merged table has unique identifiers, holds every identifier of both
   * tables, is no longer than the two together, and starts with the
   * deduplicated existing table; the rows after it carry identifiers that
   * were not in the existing table.
   */
  lemma MergeProperties<R, K>(existing: seq<R>, added: seq<R>, key: R -> K)
    ensures Unique(Merge(existing, added, key), key)
    ensures Keys(Merge(existing, added, key), key) == Keys(existing, key) + Keys(added, key)
    ensures |Merge(existing, added, key)| <= |existing| + |added|
    ensures KeepFirst(existing, key) <= Merge(existing, added, key)
    ensures forall k :: |KeepFirst(existing, key)| <= k < |Merge(existing, added, key)| ==>
              key(Merge(existing, added, key)[k]) !in Keys(existing, key)
  {
    var m := Merge(existing, added, key);
    var e := KeepFirst(existing, key);
    KeepFirstUnique(existing + added, key);
    KeepFirstKeys(existing + added, key);
    KeysAppend(existing, added, key);
    KeepFirstCount(existing + added, key);
    KeepFirstPrefix(existing, added, key);
    KeepFirstKeys(existing, key);
    forall k | |e| <= k < |m| ensures key(m[k]) !in Keys(existing, key) {
      forall i | 0 <= i < |e| ensures key(e[i]) != key(m[k]) {
        assert m[i] == e[i];
      }
      KeysIff(e, key, key(m[k]));
    }
  }

  /** When the existing table has unique identifiers, its rows are kept exactly, in front. */
  lemma MergeKeepsExisting<R, K>(existing: seq<R>, added: seq<R>, key: R -> K)
    requires Unique(existing, key)
    ensures existing <= Merge(existing, added, key)
  {
    KeepFirstOfUnique(existing, key);
    KeepFirstPrefix(existing, added, key);
  }

  /** Re-running a merge with the same new records changes nothing. */
  lemma MergeIdempotent<R, K>(existing: seq<R>, added: seq<R>, key: R -> K)
    ensures Merge(Merge(existing, added, key), added, key) == Merge(existing, added, key)
  {
    var m := Merge(existing, added, key);
    MergeProperties(existing, added, key);
    KeepFirstAbsorbs(m, added, key);
    KeepFirstOfUnique(m, key);
  }

  /** Nothing is written without new records; otherwise the written table is the merge. */
  lemma MergeIfAnyWrites<R, K>(existing: seq<R>, added: seq<R>, key: R -> K)
    ensures MergeIfAny(existing, added, key).None? <==> added == []
    ensures MergeIfAny(existing, added, key).Some? ==>
              Unique(MergeIfAny(existing, added, key).value, key) &&
              |MergeIfAny(existing, added, key).value| <= |existing| + |added|
  {
    MergeProperties(existing, added, key);
  }
}
