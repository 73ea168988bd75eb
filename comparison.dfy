/**
 Comparison of the table map with the tree map.

 The table map is turned into an array of (diphone, count) records, sorted by
 count, and each record is paired with the size of the tree's set for the same
 diphone (zero when the tree has none). The table's keys are the universe:
 keys found only in the tree are never looked at.
 */
module Comparison {
  import opened Diphones

  /** A diphone and the number of unit indices the table map holds for it. */
  datatype DiphoneCount = DiphoneCount(diphone: string, count: int)

  /** One reported line: diphone, count in the table, count in the tree. */
  datatype CountRow = CountRow(diphone: string, tableCount: int, treeCount: int)

  /** The natural order of `DiphoneCount`: by count alone, the diphone ignored. */
  function CompareTo(d: DiphoneCount, other: DiphoneCount): (r: int)
    ensures r == 0 <==> d.count == other.count
    ensures r == -1 <==> d.count < other.count
    ensures r == 1 <==> d.count > other.count
  {
    if d.count == other.count then 0
    else if d.count < other.count then -1
    else 1
  }

  /** `CompareTo` meets the contract a sort relies on: it is antisymmetric,
      transitive, and records comparing equal compare alike with any third. */
  lemma CompareToIsTotalPreorder(x: DiphoneCount, y: DiphoneCount, z: DiphoneCount)
    ensures CompareTo(x, y) == -CompareTo(y, x)
    ensures CompareTo(x, y) <= 0 && CompareTo(y, z) <= 0 ==> CompareTo(x, z) <= 0
    ensures CompareTo(x, y) == 0 ==> CompareTo(x, z) == CompareTo(y, z)
  {
  }

  /** Non-decreasing by count. */
  ghost predicate SortedByCount(s: seq<DiphoneCount>)
  {
    forall i, j :: 0 <= i < j < |s| ==> s[i].count <= s[j].count
  }

  /** Sorts the records in place by `CompareTo`, as an insertion sort; the
      result is a permutation of the input. */
  method SortByCount(a: array<DiphoneCount>)
    modifies a
    ensures SortedByCount(a[..])
    ensures multiset(a[..]) == old(multiset(a[..]))
  {
    var i := 0;
    while i < a.Length
      invariant 0 <= i <= a.Length
      invariant SortedByCount(a[..i])
      invariant multiset(a[..]) == old(multiset(a[..]))
    {
      InsertLast(a, i);
      i := i + 1;
    }
    assert a[..a.Length] == a[..];
  }

  /** Moves `a[i]` down into the sorted prefix `a[..i]`, swapping it with each
      larger neighbour, so that `a[..i + 1]` is sorted; the unsorted tail
      `a[i + 1..]` is left as it was. */
  method InsertLast(a: array<DiphoneCount>, i: int)
    requires 0 <= i < a.Length
    requires SortedByCount(a[..i])
    modifies a
    ensures SortedByCount(a[..i + 1])
    ensures a[i + 1..] == old(a[i + 1..])
    ensures multiset(a[..]) == old(multiset(a[..]))
  {
    var j := i;
    while j > 0 && CompareTo(a[j - 1], a[j]) > 0
      invariant 0 <= j <= i
      invariant forall p, q :: 0 <= p < q <= i && q != j ==> a[p].count <= a[q].count
      invariant forall m :: i < m < a.Length ==> a[m] == old(a[m])
      invariant multiset(a[..]) == old(multiset(a[..]))
    {
      SwapNeighbours(a, j - 1);
      j := j - 1;
    }
  }

  /** Exchanges `a[j]` and `a[j + 1]`. */
  method SwapNeighbours(a: array<DiphoneCount>, j: int)
    requires 0 <= j < a.Length - 1
    modifies a
    ensures a[j] == old(a[j + 1]) && a[j + 1] == old(a[j])
    ensures forall m :: 0 <= m < a.Length && m != j && m != j + 1 ==> a[m] == old(a[m])
    ensures multiset(a[..]) == old(multiset(a[..]))
  {
    a[j], a[j + 1] := a[j + 1], a[j];
  }

  /** The diphones named by a sequence of records. */
  ghost function NamedDiphones(s: seq<DiphoneCount>): set<string>
  {
    set j | 0 <= j < |s| :: s[j].diphone
  }

  /** Every record names a key of `mp` and carries the size of its set. */
  ghost predicate Entries(s: seq<DiphoneCount>, mp: DiphoneMap)
  {
    forall j :: 0 <= j < |s| ==> s[j].diphone in mp && s[j].count == |mp[s[j].diphone]|
  }

  /** No diphone is named twice. */
  ghost predicate DistinctDiphones(s: seq<DiphoneCount>)
  {
    forall i, j :: 0 <= i < j < |s| ==> s[i].diphone != s[j].diphone
  }

  /** The records are exactly the (key, set size) pairs of `mp`, one per key. */
  ghost predicate Tabulates(s: seq<DiphoneCount>, mp: DiphoneMap)
  {
    Entries(s, mp) && DistinctDiphones(s) && NamedDiphones(s) == mp.Keys
  }

  /** Two equal elements at different positions occur at least twice in the multiset. */
  lemma {:induction false} RepeatedElement(t: seq<DiphoneCount>, i: int, j: int)
    requires 0 <= i < j < |t| && t[i] == t[j]
    ensures multiset(t)[t[i]] >= 2
  {
    assert t == t[..j] + t[j..];
    assert t[i] in t[..j];
    assert t[j] == t[j..][0];
    assert multiset(t) == multiset(t[..j]) + multiset(t[j..]);
  }

  /** In a sequence without repeated diphones every record occurs at most once. */
  lemma {:induction false} DistinctOccursOnce(s: seq<DiphoneCount>, x: DiphoneCount)
    requires DistinctDiphones(s)
    ensures multiset(s)[x] <= 1
    decreases |s|
  {
    if s != [] {
      var front := s[..|s| - 1];
      assert s == front + [s[|s| - 1]];
      DistinctOccursOnce(front, x);
      if x == s[|s| - 1] {
        forall i | 0 <= i < |front| ensures front[i] != x {
          assert s[i].diphone != s[|s| - 1].diphone;
        }
        assert x !in front;
      }
    }
  }

  /** Appending a record adds its diphone to the named ones. */
  lemma NamedDiphonesSnoc(s: seq<DiphoneCount>, d: DiphoneCount)
    ensures NamedDiphones(s + [d]) == NamedDiphones(s) + {d.diphone}
  {
    var t := s + [d];
    assert t[|s|] == d;
    forall x | x in NamedDiphones(s) ensures x in NamedDiphones(t) {
      var j :| 0 <= j < |s| && s[j].diphone == x;
      assert t[j] == s[j];
    }
  }

  /** Sorting keeps the records a tabulation of the map. */
  lemma TabulatesPermutation(s: seq<DiphoneCount>, t: seq<DiphoneCount>, mp: DiphoneMap)
    requires Tabulates(s, mp)
    requires multiset(s) == multiset(t)
    ensures Tabulates(t, mp)
  {
    forall j | 0 <= j < |t| ensures t[j].diphone in mp && t[j].count == |mp[t[j].diphone]| {
      assert t[j] in multiset(t);
      assert t[j] in s;
    }
    forall i, j | 0 <= i < j < |t| ensures t[i].diphone != t[j].diphone {
      if t[i].diphone == t[j].diphone {
        assert t[i] == t[j];
        RepeatedElement(t, i, j);
        DistinctOccursOnce(s, t[i]);
        assert false;
      }
    }
    forall d | d in NamedDiphones(s) ensures d in NamedDiphones(t) {
      var i :| 0 <= i < |s| && s[i].diphone == d;
      assert s[i] in multiset(s);
      assert s[i] in t;
      var j :| 0 <= j < |t| && t[j] == s[i];
      assert t[j].diphone == d;
    }
    forall d | d in NamedDiphones(t) ensures d in NamedDiphones(s) {
      var j :| 0 <= j < |t| && t[j].diphone == d;
      assert t[j] in multiset(t);
      assert t[j] in s;
      var i :| 0 <= i < |s| && s[i] == t[j];
    }
  }

  /** Adding the record of a key not yet tabulated extends the tabulation by that key. */
  lemma TabulationStep(s: seq<DiphoneCount>, mp: DiphoneMap, remaining: set<string>, k: string)
    requires remaining <= mp.Keys && k in remaining
    requires Entries(s, mp) && DistinctDiphones(s)
    requires NamedDiphones(s) == mp.Keys - remaining
    ensures Entries(s + [DiphoneCount(k, |mp[k]|)], mp)
    ensures DistinctDiphones(s + [DiphoneCount(k, |mp[k]|)])
    ensures NamedDiphones(s + [DiphoneCount(k, |mp[k]|)]) == mp.Keys - (remaining - {k})
  {
    var d := DiphoneCount(k, |mp[k]|);
    NamedDiphonesSnoc(s, d);
    forall j | 0 <= j < |s| ensures s[j].diphone != k {
      assert s[j].diphone in NamedDiphones(s);
    }
  }

  /** Copies the table map into a record array, one record per key, in
      whatever order the keys come. */
  method CountsOf(mp: DiphoneMap) returns (mpSorted: array<DiphoneCount>)
    ensures fresh(mpSorted)
    ensures Tabulates(mpSorted[..], mp)
  {
    mpSorted := new DiphoneCount[|mp|];
    var remaining := mp.Keys;
    var i := 0;
    while remaining != {}
      invariant 0 <= i <= mpSorted.Length
      invariant remaining <= mp.Keys
      invariant i + |remaining| == |mp|
      invariant Entries(mpSorted[..i], mp) && DistinctDiphones(mpSorted[..i])
      invariant NamedDiphones(mpSorted[..i]) == mp.Keys - remaining
      decreases remaining
    {
      var k :| k in remaining;
      ghost var done := mpSorted[..i];
      TabulationStep(done, mp, remaining, k);
      mpSorted[i] := DiphoneCount(k, |mp[k]|);
      assert mpSorted[..i + 1] == done + [DiphoneCount(k, |mp[k]|)];
      remaining := remaining - {k};
      i := i + 1;
    }
    assert mpSorted[..i] == mpSorted[..];
  }

  /** The record array of the table map, sorted by count. */
  method SortedCounts(mp: DiphoneMap) returns (mpSorted: array<DiphoneCount>)
    ensures fresh(mpSorted)
    ensures Tabulates(mpSorted[..], mp)
    ensures SortedByCount(mpSorted[..])
  {
    mpSorted := CountsOf(mp);
    ghost var before := mpSorted[..];
    SortByCount(mpSorted);
    TabulatesPermutation(before, mpSorted[..], mp);
  }

  // ---------------------------------------------------------------------------
  // Rows of the report
  // ---------------------------------------------------------------------------

  /** The size of the tree's set for `k`, zero when the tree has no such key. */
  function TreeCount(cartMap: DiphoneMap, k: string): nat
  {
    if k in cartMap then |cartMap[k]| else 0
  }

  /** The table diphones whose tree count matches. */
  function MatchKeys(mp: DiphoneMap, cartMap: DiphoneMap): set<string>
  {
    set k | k in mp && |mp[k]| == TreeCount(cartMap, k)
  }

  /** The table diphones whose tree count differs. */
  function MismatchKeys(mp: DiphoneMap, cartMap: DiphoneMap): set<string>
  {
    set k | k in mp && |mp[k]| != TreeCount(cartMap, k)
  }

  /** The table diphones among `keys` that match (`ok`) or do not (`!ok`). */
  ghost function KeysWhere(keys: set<string>, mp: DiphoneMap, cartMap: DiphoneMap, ok: bool): set<string>
  {
    set k | k in keys && k in mp && (|mp[k]| == TreeCount(cartMap, k)) == ok
  }

  /** The record's table count equals its tree count. */
  predicate Reconciled(d: DiphoneCount, cartMap: DiphoneMap)
  {
    d.count == TreeCount(cartMap, d.diphone)
  }

  /** The report line for a record. */
  function RowOf(d: DiphoneCount, cartMap: DiphoneMap): CountRow
  {
    CountRow(d.diphone, d.count, TreeCount(cartMap, d.diphone))
  }

  /** The report lines, in record order, of the records that reconcile (`ok`)
      or do not (`!ok`). */
  function RowsWhere(s: seq<DiphoneCount>, cartMap: DiphoneMap, ok: bool): seq<CountRow>
    decreases |s|
  {
    if s == [] then []
    else
      var d := s[|s| - 1];
      RowsWhere(s[..|s| - 1], cartMap, ok) + (if Reconciled(d, cartMap) == ok then [RowOf(d, cartMap)] else [])
  }

  /** Extending the records by one extends the filtered lines by that record's
      line when its reconciliation is the one asked for. */
  lemma RowsWhereExtend(s: seq<DiphoneCount>, i: int, cartMap: DiphoneMap, ok: bool)
    requires 0 <= i < |s|
    ensures RowsWhere(s[..i + 1], cartMap, ok)
            == RowsWhere(s[..i], cartMap, ok) + (if Reconciled(s[i], cartMap) == ok then [RowOf(s[i], cartMap)] else [])
  {
    assert s[..i + 1][..i] == s[..i];
  }

  /** The diphones named by a sequence of rows. */
  ghost function RowDiphones(rows: seq<CountRow>): set<string>
  {
    set j | 0 <= j < |rows| :: rows[j].diphone
  }

  /** The rows report exactly the diphones of `keys`, each once, each with its
      table count and its tree count. */
  ghost predicate ReportsOn(rows: seq<CountRow>, mp: DiphoneMap, cartMap: DiphoneMap, keys: set<string>)
  {
    && (forall j :: 0 <= j < |rows| ==>
          && rows[j].diphone in mp
          && rows[j].tableCount == |mp[rows[j].diphone]|
          && rows[j].treeCount == TreeCount(cartMap, rows[j].diphone))
    && (forall i, j :: 0 <= i < j < |rows| ==> rows[i].diphone != rows[j].diphone)
    && RowDiphones(rows) == keys
  }

  /** Non-decreasing by table count. */
  ghost predicate SortedRows(rows: seq<CountRow>)
  {
    forall i, j :: 0 <= i < j < |rows| ==> rows[i].tableCount <= rows[j].tableCount
  }

  /** Appending a row adds its diphone to the reported ones. */
  lemma RowDiphonesSnoc(rows: seq<CountRow>, r: CountRow)
    ensures RowDiphones(rows + [r]) == RowDiphones(rows) + {r.diphone}
  {
    var t := rows + [r];
    assert t[|rows|] == r;
    forall x | x in RowDiphones(rows) ensures x in RowDiphones(t) {
      var j :| 0 <= j < |rows| && rows[j].diphone == x;
      assert t[j] == rows[j];
    }
  }

  /** Appending the line of a record whose diphone is new to the lines keeps
      them a report on the keys so far plus that diphone. */
  lemma ReportsOnSnoc(rows: seq<CountRow>, mp: DiphoneMap, cartMap: DiphoneMap, keys: set<string>, d: DiphoneCount)
    requires ReportsOn(rows, mp, cartMap, keys)
    requires d.diphone in mp && d.count == |mp[d.diphone]|
    requires d.diphone !in keys
    ensures ReportsOn(rows + [RowOf(d, cartMap)], mp, cartMap, keys + {d.diphone})
    ensures |keys + {d.diphone}| == |keys| + 1
  {
    RowDiphonesSnoc(rows, RowOf(d, cartMap));
    forall j | 0 <= j < |rows| ensures rows[j].diphone != d.diphone {
      assert rows[j].diphone in RowDiphones(rows);
    }
  }

  /** Adding a key to the candidates adds it to the selected ones exactly when it is selected. */
  lemma KeysWhereAdd(keys: set<string>, mp: DiphoneMap, cartMap: DiphoneMap, ok: bool, k: string)
    requires k in mp
    ensures KeysWhere(keys + {k}, mp, cartMap, ok)
            == KeysWhere(keys, mp, cartMap, ok) + (if (|mp[k]| == TreeCount(cartMap, k)) == ok then {k} else {})
  {
  }

  /** The last of distinct records names a diphone its predecessors do not,
      and the predecessors keep the properties of the whole. */
  lemma LastIsNew(s: seq<DiphoneCount>, mp: DiphoneMap)
    requires s != [] && Entries(s, mp) && DistinctDiphones(s)
    ensures s == s[..|s| - 1] + [s[|s| - 1]]
    ensures Entries(s[..|s| - 1], mp) && DistinctDiphones(s[..|s| - 1])
    ensures s[|s| - 1].diphone in mp && s[|s| - 1].count == |mp[s[|s| - 1].diphone]|
    ensures s[|s| - 1].diphone !in NamedDiphones(s[..|s| - 1])
  {
    var front := s[..|s| - 1];
    forall j | 0 <= j < |front| ensures front[j].diphone != s[|s| - 1].diphone {
      assert s[j].diphone != s[|s| - 1].diphone;
    }
  }

  /** Filtering distinct records by reconciliation reports exactly the keys
      that match (or not), one line each. */
  lemma {:induction false} RowsWhereReports(s: seq<DiphoneCount>, mp: DiphoneMap, cartMap: DiphoneMap, ok: bool)
    requires Entries(s, mp) && DistinctDiphones(s)
    ensures ReportsOn(RowsWhere(s, cartMap, ok), mp, cartMap, KeysWhere(NamedDiphones(s), mp, cartMap, ok))
    ensures |RowsWhere(s, cartMap, ok)| == |KeysWhere(NamedDiphones(s), mp, cartMap, ok)|
    decreases |s|
  {
    if s != [] {
      var front, d := s[..|s| - 1], s[|s| - 1];
      LastIsNew(s, mp);
      RowsWhereReports(front, mp, cartMap, ok);
      NamedDiphonesSnoc(front, d);
      var before := KeysWhere(NamedDiphones(front), mp, cartMap, ok);
      KeysWhereAdd(NamedDiphones(front), mp, cartMap, ok, d.diphone);
      if Reconciled(d, cartMap) == ok {
        assert RowsWhere(s, cartMap, ok) == RowsWhere(front, cartMap, ok) + [RowOf(d, cartMap)];
        ReportsOnSnoc(RowsWhere(front, cartMap, ok), mp, cartMap, before, d);
      } else {
        assert RowsWhere(s, cartMap, ok) == RowsWhere(front, cartMap, ok);
      }
    }
  }

  /** Every line filtered from records whose counts are at most `c` has a
      table count of at most `c`. */
  lemma {:induction false} RowsWhereBounded(s: seq<DiphoneCount>, cartMap: DiphoneMap, ok: bool, c: int)
    requires forall j :: 0 <= j < |s| ==> s[j].count <= c
    ensures forall r :: r in RowsWhere(s, cartMap, ok) ==> r.tableCount <= c
    decreases |s|
  {
    if s != [] {
      RowsWhereBounded(s[..|s| - 1], cartMap, ok, c);
    }
  }

  /** Filtering records sorted by count gives lines sorted by table count. */
  lemma {:induction false} RowsWhereSorted(s: seq<DiphoneCount>, cartMap: DiphoneMap, ok: bool)
    requires SortedByCount(s)
    ensures SortedRows(RowsWhere(s, cartMap, ok))
    decreases |s|
  {
    if s != [] {
      var front, d := s[..|s| - 1], s[|s| - 1];
      RowsWhereSorted(front, cartMap, ok);
      RowsWhereBounded(front, cartMap, ok, d.count);
      var rest := RowsWhere(front, cartMap, ok);
      if Reconciled(d, cartMap) == ok {
        var rows := rest + [RowOf(d, cartMap)];
        forall i, j | 0 <= i < j < |rows| ensures rows[i].tableCount <= rows[j].tableCount {
          if j == |rows| - 1 {
            assert rows[i] in rest;
          }
        }
      }
    }
  }

  /** For the sorted tabulation of the table map, the agreeing lines report
      exactly the matching diphones and the disagreeing lines exactly the
      mismatching ones, each group sorted by table count. */
  lemma ReconciliationReport(s: seq<DiphoneCount>, mp: DiphoneMap, cartMap: DiphoneMap)
    requires Tabulates(s, mp) && SortedByCount(s)
    ensures ReportsOn(RowsWhere(s, cartMap, true), mp, cartMap, MatchKeys(mp, cartMap))
    ensures ReportsOn(RowsWhere(s, cartMap, false), mp, cartMap, MismatchKeys(mp, cartMap))
    ensures SortedRows(RowsWhere(s, cartMap, true)) && SortedRows(RowsWhere(s, cartMap, false))
    ensures |RowsWhere(s, cartMap, false)| == |MismatchKeys(mp, cartMap)|
  {
    RowsWhereReports(s, mp, cartMap, true);
    RowsWhereReports(s, mp, cartMap, false);
    RowsWhereSorted(s, cartMap, true);
    RowsWhereSorted(s, cartMap, false);
    assert KeysWhere(NamedDiphones(s), mp, cartMap, true) == MatchKeys(mp, cartMap);
    assert KeysWhere(NamedDiphones(s), mp, cartMap, false) == MismatchKeys(mp, cartMap);
  }

  /** No table diphone mismatches exactly when every table diphone's tree
      count equals its table count. */
  lemma NoMismatchIffAllMatch(mp: DiphoneMap, cartMap: DiphoneMap)
    ensures |MismatchKeys(mp, cartMap)| == 0 <==> forall k :: k in mp ==> |mp[k]| == TreeCount(cartMap, k)
  {
    if forall k :: k in mp ==> |mp[k]| == TreeCount(cartMap, k) {
      assert MismatchKeys(mp, cartMap) == {};
    } else {
      var k :| k in mp && |mp[k]| != TreeCount(cartMap, k);
      assert k in MismatchKeys(mp, cartMap);
    }
  }

  /** Diphones found only in the tree never change which table diphones match. */
  lemma CartOnlyKeysIgnored(mp: DiphoneMap, cartMap: DiphoneMap, extra: DiphoneMap)
    requires extra.Keys !! mp.Keys
    ensures MatchKeys(mp, cartMap + extra) == MatchKeys(mp, cartMap)
    ensures MismatchKeys(mp, cartMap + extra) == MismatchKeys(mp, cartMap)
  {
    assert forall k :: k in mp ==> TreeCount(cartMap + extra, k) == TreeCount(cartMap, k);
  }
}
