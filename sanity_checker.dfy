/**
 The voice-import sanity check: count the diphones of a half-phone feature
 table and of the CART built over the same units, and compare the counts.

 `SanityChecker` keeps the two maps it builds as fields, as
 `marytts.tools.voiceimport.SanityChecker` does; each pass replaces its own
 map and leaves the other alone.
 Reading the feature file and the CART is outside the model: the passes take
 the decoded rows and the leaves' unit indices as arguments.
 */
module SanityCheck {
  import opened Diphones
  import opened Comparison

  /** Java's out-of-bounds failure when the table pass reads the row before the first. */
  datatype Error = IndexOutOfBounds(index: int)

  datatype Result<T> = Success(value: T) | Failure(error: Error)

  class SanityChecker {
    /** Diphone to unit indices, as found in the feature table. */
    var diPhoneSet: DiphoneMap
    /** Diphone to unit indices, as reconstructed from the CART's leaves. */
    var cartdiPhoneSet: DiphoneMap

    /** A checker before either pass has run: both maps are empty (the Java
        fields are still null, and no diphone has been counted). */
    constructor()
      ensures diPhoneSet == map[] && cartdiPhoneSet == map[]
    {
      diPhoneSet := map[];
      cartdiPhoneSet := map[];
    }

    /** The table pass. Walks the rows in order; every row with a positive unit
        index that is not a right half adds that index under the key formed
        with the row before it. A first row with a positive unit index makes
        the pass read before the start of the table and fail there, leaving
        the table map empty. */
    method ComputeCoverage(fVCopy: seq<FeatureRow>) returns (outcome: Result<()>)
      modifies this
      ensures outcome == (if TableFails(fVCopy) then Failure(IndexOutOfBounds(-1)) else Success(()))
      ensures diPhoneSet == (if outcome.Success? then TableCoverage(fVCopy, |fVCopy|) else map[])
      ensures cartdiPhoneSet == old(cartdiPhoneSet)
    {
      diPhoneSet := map[];
      for i := 0 to |fVCopy|
        invariant diPhoneSet == TableCoverage(fVCopy, i)
        invariant i > 0 ==> !TableFails(fVCopy)
        invariant cartdiPhoneSet == old(cartdiPhoneSet)
      {
        var fv := fVCopy[i];
        var cUnitIdx := fv.unitIndex;
        if cUnitIdx <= 0 {
          continue;
        }
        if i == 0 {
          return Failure(IndexOutOfBounds(i - 1));
        }
        var prevFV := fVCopy[i - 1];
        if fv.lr == "R" {
          continue;
        }
        var diPhone := DiphoneKey(prevFV, fv);
        diPhoneSet := Insert(diPhoneSet, diPhone, cUnitIdx);
      }
      outcome := Success(());
    }

    /** The tree pass. Gathers every unit index stored in the leaves into one
        list, then visits the list: indices at or below zero are skipped,
        indices at or beyond the table size are skipped with a warning,
        right halves are skipped, and so is an index whose predecessor is not
        in the list; every other index is added under the key of table rows
        `u - 1` and `u`. Returns the indices warned about, in list order. */
    method ComputeCARTCoverage(leaves: seq<seq<int>>, table: seq<FeatureRow>) returns (warnings: seq<int>)
      modifies this
      ensures cartdiPhoneSet == TreeCoverage(Flatten(leaves), Flatten(leaves), table)
      ensures warnings == OutOfRange(Flatten(leaves), |table|)
      ensures diPhoneSet == old(diPhoneSet)
    {
      cartdiPhoneSet := map[];
      var listHalfUnits: seq<int> := [];
      for l := 0 to |leaves|
        invariant listHalfUnits == Flatten(leaves[..l])
      {
        var data := leaves[l];
        for i := 0 to |data|
          invariant listHalfUnits == Flatten(leaves[..l]) + data[..i]
        {
          listHalfUnits := listHalfUnits + [data[i]];
        }
        assert data[..|data|] == data;
        assert leaves[..l + 1][..l] == leaves[..l];
      }
      assert leaves[..|leaves|] == leaves;
      var refList := listHalfUnits;
      warnings := [];
      for n := 0 to |listHalfUnits|
        invariant cartdiPhoneSet == TreeCoverage(refList, listHalfUnits[..n], table)
        invariant warnings == OutOfRange(listHalfUnits[..n], |table|)
        invariant diPhoneSet == old(diPhoneSet)
      {
        var unitIndex := listHalfUnits[n];
        assert listHalfUnits[..n + 1][..n] == listHalfUnits[..n];
        if unitIndex <= 0 {
          continue;
        }
        var size := |table|;
        if unitIndex >= size {
          warnings := warnings + [unitIndex];
          continue;
        }
        var fv := table[unitIndex];
        if fv.lr == "R" {
          continue;
        }
        var found := ContainsUnitIndex(refList, unitIndex - 1);
        if !found {
          continue;
        }
        var prevFV := table[unitIndex - 1];
        var diPhone := DiphoneKey(prevFV, fv);
        cartdiPhoneSet := Insert(cartdiPhoneSet, diPhone, unitIndex);
      }
      assert listHalfUnits[..|listHalfUnits|] == listHalfUnits;
    }

    /** Linear search of the list, stopping at the first match. */
    method ContainsUnitIndex(refList: seq<int>, uIndex: int) returns (found: bool)
      ensures found <==> uIndex in refList
    {
      var i := 0;
      while i < |refList|
        invariant 0 <= i <= |refList|
        invariant uIndex !in refList[..i]
      {
        var listVal := refList[i];
        if listVal == uIndex {
          return true;
        }
        assert refList[..i + 1] == refList[..i] + [listVal];
        i := i + 1;
      }
      assert refList[..i] == refList;
      return false;
    }

    /** Compares the table map with the tree map. Lists the table diphones
        whose tree count (zero when absent) matches, then those whose count
        differs, each group in ascending order of table count, and counts the
        latter; succeeds exactly when there are none. */
    method PrintSanityCheckDetails(mp: DiphoneMap, cartMap: DiphoneMap)
      returns (success: bool, okRows: seq<CountRow>, badRows: seq<CountRow>, failCount: nat)
      ensures ReportsOn(okRows, mp, cartMap, MatchKeys(mp, cartMap)) && SortedRows(okRows)
      ensures ReportsOn(badRows, mp, cartMap, MismatchKeys(mp, cartMap)) && SortedRows(badRows)
      ensures failCount == |MismatchKeys(mp, cartMap)|
      ensures success <==> failCount == 0
      ensures success <==> forall k :: k in mp ==> |mp[k]| == TreeCount(cartMap, k)
    {
      var mpSorted := SortedCounts(mp);
      ghost var sorted := mpSorted[..];

      // First the diphones whose counts agree.
      okRows := [];
      for i := 0 to mpSorted.Length
        invariant mpSorted[..] == sorted
        invariant okRows == RowsWhere(sorted[..i], cartMap, true)
      {
        var diphone := mpSorted[i].diphone;
        var mpCount := mpSorted[i].count;
        var cartSetSize := 0;
        if diphone in cartMap {
          cartSetSize := |cartMap[diphone]|;
        }
        RowsWhereExtend(sorted, i, cartMap, true);
        if mpCount == cartSetSize {
          okRows := okRows + [CountRow(diphone, mpCount, cartSetSize)];
        }
      }

      // Then those whose counts differ.
      failCount := 0;
      badRows := [];
      for i := 0 to mpSorted.Length
        invariant mpSorted[..] == sorted
        invariant badRows == RowsWhere(sorted[..i], cartMap, false)
        invariant failCount == |badRows|
      {
        var diphone := mpSorted[i].diphone;
        var mpCount := mpSorted[i].count;
        var cartSetSize := 0;
        if diphone in cartMap {
          cartSetSize := |cartMap[diphone]|;
        }
        RowsWhereExtend(sorted, i, cartMap, false);
        if mpCount != cartSetSize {
          badRows := badRows + [CountRow(diphone, mpCount, cartSetSize)];
          failCount := failCount + 1;
        }
      }

      if failCount > 0 {
        success := false;
      } else {
        success := true;
      }

      assert sorted[..mpSorted.Length] == sorted;
      ReconciliationReport(sorted, mp, cartMap);
      NoMismatchIffAllMatch(mp, cartMap);
    }

    /** The rows written to the report file: one per table diphone, with its
        table count and tree count (zero when absent), in ascending order of
        table count. */
    method PrintDataToFile(mp: DiphoneMap, cartMap: DiphoneMap) returns (lines: seq<CountRow>)
      ensures ReportsOn(lines, mp, cartMap, mp.Keys)
      ensures SortedRows(lines)
    {
      var mpSorted := SortedCounts(mp);
      lines := [];
      for i := 0 to mpSorted.Length
        invariant |lines| == i
        invariant forall j :: 0 <= j < i ==> lines[j] == RowOf(mpSorted[j], cartMap)
      {
        var diphone := mpSorted[i].diphone;
        var mpCount := mpSorted[i].count;
        var cartSetSize := 0;
        if diphone in cartMap {
          cartSetSize := |cartMap[diphone]|;
        }
        lines := lines + [CountRow(diphone, mpCount, cartSetSize)];
      }
      forall x | x in mp.Keys ensures x in RowDiphones(lines) {
        assert x in NamedDiphones(mpSorted[..]);
        var j :| 0 <= j < mpSorted.Length && mpSorted[..][j].diphone == x;
        assert lines[j].diphone == x;
      }
    }

    /** The whole check: the table pass, the tree pass over the same table,
        then the comparison. A failing table pass ends the run with its error. */
    method Compute(fVCopy: seq<FeatureRow>, leaves: seq<seq<int>>) returns (result: Result<bool>)
      modifies this
      ensures result.Failure? <==> TableFails(fVCopy)
      ensures result.Failure? ==> result.error == IndexOutOfBounds(-1)
      ensures result.Failure? ==> diPhoneSet == map[] && cartdiPhoneSet == old(cartdiPhoneSet)
      ensures result.Success? ==> diPhoneSet == TableCoverage(fVCopy, |fVCopy|)
      ensures result.Success? ==> cartdiPhoneSet == TreeCoverage(Flatten(leaves), Flatten(leaves), fVCopy)
      ensures result.Success? ==> (result.value <==> MismatchKeys(diPhoneSet, cartdiPhoneSet) == {})
    {
      var outcome := ComputeCoverage(fVCopy);
      if outcome.Failure? {
        return Failure(outcome.error);
      }
      var warnings := ComputeCARTCoverage(leaves, fVCopy);
      var success, okRows, badRows, failCount := PrintSanityCheckDetails(diPhoneSet, cartdiPhoneSet);
      result := Success(success);
    }
  }

  /** When every row's unit index is its position and the leaves store exactly
      the units of the table, the table pass cannot fail, the two passes build
      the same map, and the check succeeds. */
  lemma ConsistentCorpusReconciles(rows: seq<FeatureRow>, leaves: seq<seq<int>>)
    requires forall i :: 0 <= i < |rows| ==> rows[i].unitIndex == i
    requires forall u :: u in Flatten(leaves) <==> 0 <= u < |rows|
    ensures !TableFails(rows)
    ensures TreeCoverage(Flatten(leaves), Flatten(leaves), rows) == TableCoverage(rows, |rows|)
    ensures MismatchKeys(TableCoverage(rows, |rows|), TreeCoverage(Flatten(leaves), Flatten(leaves), rows)) == {}
  {
    var all := Flatten(leaves);
    var table := TableCoverage(rows, |rows|);
    var tree := TreeCoverage(all, all, rows);
    forall k, c ensures (k in table && c in table[k]) <==> (k in tree && c in tree[k]) {
      TableCoverageExactly(rows, |rows|, k, c);
      TreeCoverageExactly(all, all, rows, k, c);
      if exists i :: i < |rows| && TableInstance(rows, i, k, c) {
        var i :| i < |rows| && TableInstance(rows, i, k, c);
        assert i == c;
        assert TreeInstance(all, rows, k, c);
      }
      if c in all && TreeInstance(all, rows, k, c) {
        assert TableInstance(rows, c, k, c);
      }
    }
    SameMembersSameMap(table, tree);
  }
}
